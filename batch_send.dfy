/** `send_message_batch`: chunked delivery of messages with progress notices,
    per-item FloodWait retry and text-only fallback, and a closing summary. */
module BatchSend {
  import opened Common

  /** The pauses the sender takes: half a second after each delivered item, `x + 2`
      seconds after a FloodWait of `x`, and the configured delay between chunks. */
  datatype Pause = ItemGap | Backoff(seconds: nat) | ChunkGap(seconds: nat)

  /** The client calls the sender makes; the texts themselves are not modelled
      beyond the numbers they report. */
  datatype Action =
    | Notice(batch: nat, total: nat, size: nat)
    | Copy(index: nat)
    | TextOnly(index: nat, text: string)
    | Summary(sent: nat, total: nat)
    | ErrorNotice(sent: nat)

  /** One observable step: a client call together with the reply it got, or a pause. */
  datatype SendEvent = Called(action: Action, reply: Reply) | Slept(pause: Pause)

  /** The replies the client gives, by the ordinal of the call within the batch. */
  type Replies = nat -> Reply

  /** How far a batch has got: the number of client calls made, `sent_count`, and
      the events so far. */
  datatype Progress = Progress(calls: nat, sent: nat, events: seq<SendEvent>)

  /** Carrying on, or an exception on its way to the outer `except`. */
  datatype Step = Continue(p: Progress) | Abort(p: Progress)

  /** `send_message_batch`'s return value, or the exception that escapes it when
      even the error notice fails. */
  datatype Result = Returned(ok: bool) | Raised

  datatype BatchOutcome = BatchOutcome(result: Result, last: Progress)

  function Min(a: int, b: int): int {
    if a <= b then a else b
  }

  /** `(len(messages) + batch_size - 1) // batch_size`. */
  function ChunkCount(n: nat, size: nat): nat
    requires size >= 1
  {
    (n + size - 1) / size
  }

  /** The notice posted before the chunk that starts at message `i`: its number,
      the number of chunks, and how many messages it holds. */
  function ChunkHeader(n: nat, i: nat, size: nat): Action
    requires size >= 1 && i < n
  {
    Notice(i / size + 1, ChunkCount(n, size), Min(i + size, n) - i)
  }

  /** Make the next client call, recording it with the reply it gets. */
  function Call(replies: Replies, p: Progress, a: Action): Progress {
    Progress(p.calls + 1, p.sent, p.events + [Called(a, replies(p.calls))])
  }

  function Sleep(p: Progress, pause: Pause): Progress {
    Progress(p.calls, p.sent, p.events + [Slept(pause)])
  }

  function Delivered(p: Progress): Progress {
    Progress(p.calls, p.sent + 1, p.events)
  }

  /** The body of `for message in batch` for `messages[j]`: copy it; on success count
      it and pause; on FloodWait back off and copy once more, counting only a success
      and letting any failure escape; on another failure send its text, when it has
      one, without counting it. */
  function ItemStep(replies: Replies, ms: seq<Message>, j: nat, p: Progress): Step
    requires j < |ms|
  {
    var first := replies(p.calls);
    var p1 := Call(replies, p, Copy(j));
    match first
    case Ok => Continue(Sleep(Delivered(p1), ItemGap))
    case Flood(x) =>
      var p2 := Call(replies, Sleep(p1, Backoff(x + 2)), Copy(j));
      if replies(p1.calls) == Ok then Continue(Delivered(p2)) else Abort(p2)
    case Fail =>
      match Fallback(ms[j])
      case None => Continue(p1)
      case Some(text) =>
        var p2 := Call(replies, p1, TextOnly(j, text));
        if replies(p1.calls) == Ok then Continue(p2) else Abort(p2)
  }

  /** Items `j .. end - 1` of a chunk, stopping at the first exception. */
  function Items(replies: Replies, ms: seq<Message>, j: nat, end: nat, p: Progress): Step
    requires j <= end <= |ms|
    decreases end - j
  {
    if j == end then Continue(p)
    else match ItemStep(replies, ms, j, p)
      case Abort(q) => Abort(q)
      case Continue(q) => Items(replies, ms, j + 1, end, q)
  }

  /** The chunks starting at `i`, `i + size`, ...: a notice, the chunk's items, and
      the pause between chunks when another chunk follows. */
  function Chunks(replies: Replies, ms: seq<Message>, i: nat, size: nat, delay: nat, p: Progress): Step
    requires size >= 1
    decreases |ms| - i
  {
    if i >= |ms| then Continue(p)
    else
      var end := Min(i + size, |ms|);
      var p1 := Call(replies, p, ChunkHeader(|ms|, i, size));
      if replies(p.calls) != Ok then Abort(p1)
      else match Items(replies, ms, i, end, p1)
        case Abort(q) => Abort(q)
        case Continue(q) =>
          Chunks(replies, ms, i + size, size, delay, if i + size < |ms| then Sleep(q, ChunkGap(delay)) else q)
  }

  /** The outer `except`: report how many were sent; if that report fails too,
      the exception escapes. */
  function ErrorPath(replies: Replies, p: Progress): BatchOutcome {
    var q := Call(replies, p, ErrorNotice(p.sent));
    BatchOutcome(if replies(p.calls) == Ok then Returned(false) else Raised, q)
  }

  function SendBatch(replies: Replies, ms: seq<Message>, size: nat, delay: nat): BatchOutcome
    requires size >= 1
  {
    if ms == [] then BatchOutcome(Returned(false), Progress(0, 0, []))
    else match Chunks(replies, ms, 0, size, delay, Progress(0, 0, []))
      case Abort(p) => ErrorPath(replies, p)
      case Continue(p) =>
        var q := Call(replies, p, Summary(p.sent, |ms|));
        if replies(p.calls) == Ok then BatchOutcome(Returned(true), q) else ErrorPath(replies, q)
  }

  method SendMessageBatch(replies: Replies, ms: seq<Message>, size: nat, delay: nat)
    returns (result: Result, last: Progress)
    requires size >= 1
    ensures BatchOutcome(result, last) == SendBatch(replies, ms, size, delay)
  {
    if ms == [] {
      return Returned(false), Progress(0, 0, []);
    }
    var total := (|ms| + size - 1) / size;
    var calls: nat, sent: nat, events: seq<SendEvent> := 0, 0, [];
    var failed := false;
    ghost var whole := Chunks(replies, ms, 0, size, delay, Progress(0, 0, []));
    assert total == ChunkCount(|ms|, size);
    var i: nat := 0;
    while i < |ms|
      invariant !failed ==> whole == Chunks(replies, ms, i, size, delay, Progress(calls, sent, events))
      invariant failed ==> whole == Abort(Progress(calls, sent, events))
      decreases |ms| - i
    {
      var end := Min(i + size, |ms|);
      ghost var before := Progress(calls, sent, events);
      var r := replies(calls);
      events := events + [Called(Notice(i / size + 1, total, end - i), r)];
      calls := calls + 1;
      if r != Ok {
        failed := true;
        break;
      }
      assert Progress(calls, sent, events) == Call(replies, before, ChunkHeader(|ms|, i, size));
      failed, calls, sent, events := SendChunk(replies, ms, i, end, calls, sent, events);
      if failed {
        break;
      }
      if i + size < |ms| {
        events := events + [Slept(ChunkGap(delay))];
      }
      i := i + size;
    }
    assert whole == if failed then Abort(Progress(calls, sent, events)) else Continue(Progress(calls, sent, events));
    if !failed {
      var r := replies(calls);
      events := events + [Called(Summary(sent, |ms|), r)];
      calls := calls + 1;
      if r == Ok {
        return Returned(true), Progress(calls, sent, events);
      }
    }
    var r := replies(calls);
    events := events + [Called(ErrorNotice(sent), r)];
    calls := calls + 1;
    result := if r == Ok then Returned(false) else Raised;
    last := Progress(calls, sent, events);
  }

  /** The inner `for message in batch` loop over `messages[start..end]`; `failed`
      reports an exception that leaves the loop. */
  method SendChunk(replies: Replies, ms: seq<Message>, start: nat, end: nat, calls0: nat, sent0: nat, events0: seq<SendEvent>)
    returns (failed: bool, calls: nat, sent: nat, events: seq<SendEvent>)
    requires start <= end <= |ms|
    ensures Items(replies, ms, start, end, Progress(calls0, sent0, events0))
      == if failed then Abort(Progress(calls, sent, events)) else Continue(Progress(calls, sent, events))
  {
    calls, sent, events := calls0, sent0, events0;
    failed := false;
    var j := start;
    while j < end
      invariant start <= j <= end
      invariant Items(replies, ms, start, end, Progress(calls0, sent0, events0)) == Items(replies, ms, j, end, Progress(calls, sent, events))
    {
      ghost var itemStart := Progress(calls, sent, events);
      var first := replies(calls);
      events := events + [Called(Copy(j), first)];
      calls := calls + 1;
      match first {
        case Ok =>
          sent := sent + 1;
          events := events + [Slept(ItemGap)];
        case Flood(x) =>
          events := events + [Slept(Backoff(x + 2))];
          var second := replies(calls);
          events := events + [Called(Copy(j), second)];
          calls := calls + 1;
          if second == Ok {
            sent := sent + 1;
          } else {
            failed := true;
          }
        case Fail =>
          var text := Fallback(ms[j]);
          if text.Some? {
            var third := replies(calls);
            events := events + [Called(TextOnly(j, text.value), third)];
            calls := calls + 1;
            if third != Ok {
              failed := true;
            }
          }
      }
      if failed {
        assert ItemStep(replies, ms, j, itemStart) == Abort(Progress(calls, sent, events));
        return;
      }
      assert ItemStep(replies, ms, j, itemStart) == Continue(Progress(calls, sent, events));
      j := j + 1;
    }
  }

  // ---------------------------------------------------------------------------
  // What `sent_count` counts

  /** The indices of the messages whose copy succeeded, in the order of the events. */
  function OkCopies(events: seq<SendEvent>): seq<nat> {
    if events == [] then []
    else
      var e := events[|events| - 1];
      OkCopies(events[..|events| - 1]) + (if e.Called? && e.action.Copy? && e.reply == Ok then [e.action.index] else [])
  }

  lemma OkCopiesAppend(events: seq<SendEvent>, e: SendEvent)
    ensures OkCopies(events + [e]) == OkCopies(events) + (if e.Called? && e.action.Copy? && e.reply == Ok then [e.action.index] else [])
  {
    assert (events + [e])[..|events|] == events;
  }

  predicate Increasing(s: seq<nat>) {
    forall a, b :: 0 <= a < b < |s| ==> s[a] < s[b]
  }

  /** `sent_count` is the number of successful copies, no message was copied
      successfully twice, and only messages before `bound` were. */
  predicate Counted(p: Progress, bound: nat) {
    var ok := OkCopies(p.events);
    p.sent == |ok| && Increasing(ok) && forall a :: 0 <= a < |ok| ==> ok[a] < bound
  }

  lemma CountedOther(p: Progress, bound: nat, e: SendEvent)
    requires Counted(p, bound)
    requires !(e.Called? && e.action.Copy? && e.reply == Ok)
    ensures Counted(Progress(p.calls, p.sent, p.events + [e]), bound)
  {
    OkCopiesAppend(p.events, e);
  }

  lemma CountedCopy(p: Progress, j: nat, r: Reply)
    requires Counted(p, j)
    ensures r == Ok ==> Counted(Progress(p.calls + 1, p.sent + 1, p.events + [Called(Copy(j), r)]), j + 1)
    ensures r != Ok ==> Counted(Progress(p.calls + 1, p.sent, p.events + [Called(Copy(j), r)]), j)
  {
    OkCopiesAppend(p.events, Called(Copy(j), r));
  }

  lemma CountedWider(p: Progress, bound: nat, wider: nat)
    requires Counted(p, bound) && bound <= wider
    ensures Counted(p, wider)
  {
  }

  lemma ItemCounted(replies: Replies, ms: seq<Message>, j: nat, p: Progress)
    requires j < |ms| && Counted(p, j)
    ensures Counted(ItemStep(replies, ms, j, p).p, j + 1)
  {
    var first := replies(p.calls);
    var p1 := Call(replies, p, Copy(j));
    CountedCopy(p, j, first);
    match first
    case Ok =>
      CountedOther(Delivered(p1), j + 1, Slept(ItemGap));
    case Flood(x) =>
      CountedOther(p1, j, Slept(Backoff(x + 2)));
      var p15 := Sleep(p1, Backoff(x + 2));
      CountedCopy(p15, j, replies(p1.calls));
    case Fail =>
      if Fallback(ms[j]).Some? {
        CountedOther(p1, j, Called(TextOnly(j, Fallback(ms[j]).value), replies(p1.calls)));
      }
  }

  lemma {:induction false} ItemsCounted(replies: Replies, ms: seq<Message>, j: nat, end: nat, p: Progress)
    requires j <= end <= |ms| && Counted(p, j)
    ensures Counted(Items(replies, ms, j, end, p).p, end)
    decreases end - j
  {
    if j < end {
      ItemCounted(replies, ms, j, p);
      var q := ItemStep(replies, ms, j, p);
      if q.Continue? {
        ItemsCounted(replies, ms, j + 1, end, q.p);
      }
    }
  }

  /** A chunk whose notice or one of whose items fails ends the batch right there. */
  lemma ChunkStops(replies: Replies, ms: seq<Message>, i: nat, size: nat, delay: nat, p: Progress)
    requires size >= 1 && i < |ms|
    ensures var end := Min(i + size, |ms|);
      var p1 := Call(replies, p, ChunkHeader(|ms|, i, size));
      (replies(p.calls) != Ok ==> Chunks(replies, ms, i, size, delay, p) == Abort(p1)) &&
      (replies(p.calls) == Ok && Items(replies, ms, i, end, p1).Abort? ==>
        Chunks(replies, ms, i, size, delay, p) == Items(replies, ms, i, end, p1))
  {
  }

  lemma ChunkCounted(replies: Replies, ms: seq<Message>, i: nat, size: nat, delay: nat, p: Progress)
    requires size >= 1 && i < |ms| && Counted(p, i)
    ensures var end := Min(i + size, |ms|);
      var p1 := Call(replies, p, ChunkHeader(|ms|, i, size));
      Counted(p1, i) && Counted(Items(replies, ms, i, end, p1).p, end)
    ensures Items(replies, ms, i, Min(i + size, |ms|),
      Call(replies, p, ChunkHeader(|ms|, i, size))).Continue? ==>
      Counted(AfterChunk(replies, ms, i, size, delay, p), Min(i + size, |ms|))
  {
    var end := Min(i + size, |ms|);
    var a := ChunkHeader(|ms|, i, size);
    CountedOther(p, i, Called(a, replies(p.calls)));
    var p1 := Call(replies, p, a);
    ItemsCounted(replies, ms, i, end, p1);
    var q := Items(replies, ms, i, end, p1).p;
    if i + size < |ms| {
      CountedOther(q, end, Slept(ChunkGap(delay)));
    }
  }

  lemma {:induction false} ChunksCounted(replies: Replies, ms: seq<Message>, i: nat, size: nat, delay: nat, p: Progress)
    requires size >= 1 && Counted(p, Min(i, |ms|))
    ensures Counted(Chunks(replies, ms, i, size, delay, p).p, |ms|)
    decreases |ms| - i
  {
    if i < |ms| {
      var end := Min(i + size, |ms|);
      var p1 := Call(replies, p, ChunkHeader(|ms|, i, size));
      ChunkCounted(replies, ms, i, size, delay, p);
      ChunkStops(replies, ms, i, size, delay, p);
      if replies(p.calls) != Ok {
        CountedWider(p1, i, |ms|);
      } else if Items(replies, ms, i, end, p1).Abort? {
        CountedWider(Items(replies, ms, i, end, p1).p, end, |ms|);
      } else {
        ChunkPasses(replies, ms, i, size, delay, p);
        ChunksCounted(replies, ms, i + size, size, delay, AfterChunk(replies, ms, i, size, delay, p));
      }
    }
  }

  lemma {:induction false} IncreasingBelow(s: seq<nat>, bound: nat)
    requires Increasing(s) && forall a :: 0 <= a < |s| ==> s[a] < bound
    ensures |s| <= bound
    decreases |s|
  {
    if s != [] {
      var init := s[..|s| - 1];
      IncreasingBelow(init, s[|s| - 1]);
    }
  }

  /** Whatever the client answers, the count the batch reports is the number of
      messages whose copy succeeded, each message counting at most once, so it never
      exceeds the number of messages; a text-only substitute is not counted. An empty
      list returns false without a call. The batch ends with the summary when it
      returns true, and otherwise, for a non-empty list, with the error notice
      stating the same count. */
  lemma SentIsDelivered(replies: Replies, ms: seq<Message>, size: nat, delay: nat)
    requires size >= 1
    ensures var out := SendBatch(replies, ms, size, delay);
      var ok := OkCopies(out.last.events);
      out.last.sent == |ok| <= |ms| && Increasing(ok) && (forall a :: 0 <= a < |ok| ==> ok[a] < |ms|) &&
      (out.result == Returned(true) ==> out.last.events[|out.last.events| - 1] == Called(Summary(out.last.sent, |ms|), Ok)) &&
      (ms == [] ==> out.result == Returned(false) && out.last.events == []) &&
      (out.result != Returned(true) && ms != [] ==> out.last.events[|out.last.events| - 1].action == ErrorNotice(out.last.sent))
  {
    var out := SendBatch(replies, ms, size, delay);
    if ms != [] {
      var start := Progress(0, 0, []);
      assert OkCopies([]) == [];
      ChunksCounted(replies, ms, 0, size, delay, start);
      var c := Chunks(replies, ms, 0, size, delay, start);
      if c.Continue? {
        var q := Call(replies, c.p, Summary(c.p.sent, |ms|));
        CountedOther(c.p, |ms|, Called(Summary(c.p.sent, |ms|), replies(c.p.calls)));
        if replies(c.p.calls) != Ok {
          CountedOther(q, |ms|, Called(ErrorNotice(q.sent), replies(q.calls)));
        }
      } else {
        CountedOther(c.p, |ms|, Called(ErrorNotice(c.p.sent), replies(c.p.calls)));
      }
    } else {
      assert OkCopies([]) == [];
    }
    IncreasingBelow(OkCopies(out.last.events), |ms|);
  }

  /** The last thing that happened was a client call that failed. */
  predicate EndsInFailure(events: seq<SendEvent>) {
    |events| > 0 && events[|events| - 1].Called? && events[|events| - 1].reply != Ok
  }

  lemma ItemAborts(replies: Replies, ms: seq<Message>, j: nat, p: Progress)
    requires j < |ms|
    ensures ItemStep(replies, ms, j, p).Abort? ==> EndsInFailure(ItemStep(replies, ms, j, p).p.events)
  {
  }

  lemma {:induction false} ItemsAbort(replies: Replies, ms: seq<Message>, j: nat, end: nat, p: Progress)
    requires j <= end <= |ms|
    ensures Items(replies, ms, j, end, p).Abort? ==> EndsInFailure(Items(replies, ms, j, end, p).p.events)
    decreases end - j
  {
    if j < end {
      ItemAborts(replies, ms, j, p);
      var q := ItemStep(replies, ms, j, p);
      if q.Continue? {
        ItemsAbort(replies, ms, j + 1, end, q.p);
      }
    }
  }

  lemma {:induction false} ChunksAbort(replies: Replies, ms: seq<Message>, i: nat, size: nat, delay: nat, p: Progress)
    requires size >= 1
    ensures Chunks(replies, ms, i, size, delay, p).Abort? ==> EndsInFailure(Chunks(replies, ms, i, size, delay, p).p.events)
    decreases |ms| - i
  {
    if i < |ms| {
      var end := Min(i + size, |ms|);
      var p1 := Call(replies, p, ChunkHeader(|ms|, i, size));
      ChunkStops(replies, ms, i, size, delay, p);
      if replies(p.calls) == Ok {
        ItemsAbort(replies, ms, i, end, p1);
        if Items(replies, ms, i, end, p1).Continue? {
          ChunkPasses(replies, ms, i, size, delay, p);
          ChunksAbort(replies, ms, i + size, size, delay, AfterChunk(replies, ms, i, size, delay, p));
        }
      }
    }
  }

  /** An exception stops the batch at once: when a non-empty batch does not return
      true, its last event is the error notice, and the event before it is the
      client call that failed, so no further message is attempted. The batch returns
      false when the error notice goes through and raises when it fails. The call that
      failed is never a message's first copy, whose failures are handled in place, and
      every failed call before it, as in any batch that returns true, is one. */
  lemma FailureStopsBatch(replies: Replies, ms: seq<Message>, size: nat, delay: nat)
    requires size >= 1 && ms != []
    ensures var out := SendBatch(replies, ms, size, delay);
      var events := out.last.events;
      out.result != Returned(true) ==>
        |events| >= 2 && events[|events| - 1].action == ErrorNotice(out.last.sent) &&
        EndsInFailure(events[..|events| - 1]) &&
        (out.result == Returned(false) <==> events[|events| - 1].reply == Ok) &&
        OnlyFirstCopiesFail(events, |events| - 2) && !FirstCopy(events, |events| - 2)
    ensures var out := SendBatch(replies, ms, size, delay);
      var events := out.last.events;
      out.result == Returned(true) ==> OnlyFirstCopiesFail(events, |events|)
  {
    ChunksAbort(replies, ms, 0, size, delay, Progress(0, 0, []));
    BatchCovers(replies, ms, size, delay);
  }

  // ---------------------------------------------------------------------------
  // A batch the client accepts in full

  /** The outline of a batch: its notices and the pauses between chunks, in order. */
  function Outline(events: seq<SendEvent>): seq<SendEvent> {
    if events == [] then []
    else
      var e := events[|events| - 1];
      Outline(events[..|events| - 1]) + (if IsMark(e) then [e] else [])
  }

  predicate IsMark(e: SendEvent) {
    (e.Called? && e.action.Notice?) || (e.Slept? && e.pause.ChunkGap?)
  }

  lemma OutlineAppend(events: seq<SendEvent>, e: SendEvent)
    ensures Outline(events + [e]) == Outline(events) + (if IsMark(e) then [e] else [])
    ensures OkCopies(events + [e]) == OkCopies(events) + (if e.Called? && e.action.Copy? && e.reply == Ok then [e.action.index] else [])
  {
    assert (events + [e])[..|events|] == events;
  }

  /** The notice of chunk `k` (from 0): its number, the number of chunks, and its
      size, which is `size` except for a shorter last chunk. */
  function ChunkNotice(n: nat, size: nat, k: nat): Action
    requires size >= 1
  {
    var rest := n - k * size;
    Notice(k + 1, ChunkCount(n, size), Min(size, if rest < 0 then 0 else rest))
  }

  /** Entry `t` of the intended outline: notice 1, a pause, notice 2, a pause, ... */
  function OutlineAt(n: nat, size: nat, delay: nat, t: nat): SendEvent
    requires size >= 1
  {
    if t % 2 == 0 then Called(ChunkNotice(n, size, t / 2), Ok) else Slept(ChunkGap(delay))
  }

  lemma MulMono(a: nat, b: nat, c: nat)
    requires a <= b
    ensures a * c <= b * c
  {
    var d := b - a;
    assert b * c == a * c + d * c;
  }

  /** Chunk `k` starts inside the list exactly when `k` is below the chunk count. */
  lemma ChunkCountBound(n: nat, size: nat, k: nat)
    requires size >= 1
    ensures k * size < n <==> k < ChunkCount(n, size)
  {
    var total := ChunkCount(n, size);
    var r := (n + size - 1) % size;
    assert n + size - 1 == total * size + r;
    if k < total {
      MulMono(k + 1, total, size);
      assert (k + 1) * size == k * size + size;
    } else {
      MulMono(total, k, size);
    }
  }

  lemma ChunkNumber(k: nat, size: nat)
    requires size >= 1
    ensures (k * size) / size == k
  {
    var q := (k * size) / size;
    var r := (k * size) % size;
    assert k * size == q * size + r && 0 <= r < size;
  }

  /** The notice the sender builds at offset `k * size` is the intended one. */
  lemma NoticeOfChunk(n: nat, size: nat, k: nat)
    requires size >= 1 && k * size < n
    ensures ChunkHeader(n, k * size, size)
      == ChunkNotice(n, size, k)
  {
    ChunkNumber(k, size);
  }

  /** The first `m` entries of the intended outline. */
  function Plan(n: nat, size: nat, delay: nat, m: nat): seq<SendEvent>
    requires size >= 1
  {
    if m == 0 then [] else Plan(n, size, delay, m - 1) + [OutlineAt(n, size, delay, m - 1)]
  }

  /** The indices `0, 1, ..., j - 1`. */
  function Upto(j: nat): seq<nat> {
    if j == 0 then [] else Upto(j - 1) + [j - 1]
  }

  lemma {:induction false} PlanAt(n: nat, size: nat, delay: nat, m: nat, t: nat)
    requires size >= 1 && t < m
    ensures |Plan(n, size, delay, m)| == m
    ensures Plan(n, size, delay, m)[t] == OutlineAt(n, size, delay, t)
  {
    if t < m - 1 {
      PlanAt(n, size, delay, m - 1, t);
    } else if m > 1 {
      PlanAt(n, size, delay, m - 1, 0);
    }
  }

  lemma {:induction false} UptoAt(j: nat, t: nat)
    requires t < j
    ensures |Upto(j)| == j
    ensures Upto(j)[t] == t
  {
    if t < j - 1 {
      UptoAt(j - 1, t);
    } else if j > 1 {
      UptoAt(j - 1, 0);
    }
  }

  /** After items `0 .. j - 1` and the first `m` outline entries, with the client
      accepting everything: every item copied once, in order, and the outline as
      intended. */
  predicate Ideal(p: Progress, n: nat, size: nat, delay: nat, j: nat, m: nat)
    requires size >= 1
  {
    p.sent == j && OkCopies(p.events) == Upto(j) && Outline(p.events) == Plan(n, size, delay, m)
  }

  lemma {:induction false} ItemsAllOk(replies: Replies, ms: seq<Message>, j: nat, end: nat, p: Progress, size: nat, delay: nat, m: nat)
    requires forall c :: replies(c) == Ok
    requires size >= 1 && j <= end <= |ms| && Ideal(p, |ms|, size, delay, j, m)
    ensures Items(replies, ms, j, end, p).Continue?
    ensures Ideal(Items(replies, ms, j, end, p).p, |ms|, size, delay, end, m)
    decreases end - j
  {
    if j < end {
      var p1 := Call(replies, p, Copy(j));
      assert replies(p.calls) == Ok;
      OutlineAppend(p.events, Called(Copy(j), Ok));
      var p2 := Sleep(Delivered(p1), ItemGap);
      OutlineAppend(p1.events, Slept(ItemGap));
      assert ItemStep(replies, ms, j, p) == Continue(p2);
      assert Ideal(p2, |ms|, size, delay, j + 1, m);
      ItemsAllOk(replies, ms, j + 1, end, p2, size, delay, m);
    }
  }

  /** The progress after chunk `i` when its notice and items all succeed. */
  function AfterChunk(replies: Replies, ms: seq<Message>, i: nat, size: nat, delay: nat, p: Progress): Progress
    requires size >= 1 && i < |ms|
  {
    var end := Min(i + size, |ms|);
    var p1 := Call(replies, p, ChunkHeader(|ms|, i, size));
    var q := Items(replies, ms, i, end, p1).p;
    if i + size < |ms| then Sleep(q, ChunkGap(delay)) else q
  }

  lemma IdealNotice(p: Progress, n: nat, size: nat, delay: nat, j: nat, k: nat)
    requires size >= 1 && Ideal(p, n, size, delay, j, 2 * k)
    ensures Ideal(Progress(p.calls + 1, p.sent, p.events + [Called(ChunkNotice(n, size, k), Ok)]), n, size, delay, j, 2 * k + 1)
  {
    OutlineAppend(p.events, Called(ChunkNotice(n, size, k), Ok));
    assert OutlineAt(n, size, delay, 2 * k) == Called(ChunkNotice(n, size, k), Ok);
  }

  lemma IdealGap(p: Progress, n: nat, size: nat, delay: nat, j: nat, k: nat)
    requires size >= 1 && Ideal(p, n, size, delay, j, 2 * k + 1)
    ensures Ideal(Sleep(p, ChunkGap(delay)), n, size, delay, j, 2 * k + 2)
  {
    OutlineAppend(p.events, Slept(ChunkGap(delay)));
    assert OutlineAt(n, size, delay, 2 * k + 1) == Slept(ChunkGap(delay));
  }

  /** A chunk whose notice and items all go through hands over to the next chunk. */
  lemma ChunkPasses(replies: Replies, ms: seq<Message>, i: nat, size: nat, delay: nat, p: Progress)
    requires size >= 1 && i < |ms| && replies(p.calls) == Ok
    requires var end := Min(i + size, |ms|);
      Items(replies, ms, i, end, Call(replies, p, ChunkHeader(|ms|, i, size))).Continue?
    ensures Chunks(replies, ms, i, size, delay, p) == Chunks(replies, ms, i + size, size, delay, AfterChunk(replies, ms, i, size, delay, p))
  {
  }

  lemma ChunkAllOk(replies: Replies, ms: seq<Message>, k: nat, i: nat, size: nat, delay: nat, p: Progress)
    requires forall c :: replies(c) == Ok
    requires size >= 1 && i == k * size && i < |ms| && Ideal(p, |ms|, size, delay, i, 2 * k)
    ensures var next := AfterChunk(replies, ms, i, size, delay, p);
      Chunks(replies, ms, i, size, delay, p) == Chunks(replies, ms, i + size, size, delay, next) &&
      Ideal(next, |ms|, size, delay, Min(i + size, |ms|), if i + size < |ms| then 2 * k + 2 else 2 * k + 1)
  {
    var end := Min(i + size, |ms|);
    NoticeOfChunk(|ms|, size, k);
    var a := ChunkHeader(|ms|, i, size);
    assert replies(p.calls) == Ok;
    var p1 := Call(replies, p, a);
    IdealNotice(p, |ms|, size, delay, i, k);
    ItemsAllOk(replies, ms, i, end, p1, size, delay, 2 * k + 1);
    ChunkPasses(replies, ms, i, size, delay, p);
    var q := Items(replies, ms, i, end, p1).p;
    if i + size < |ms| {
      IdealGap(q, |ms|, size, delay, end, k);
    }
  }

  lemma {:induction false} ChunksAllOk(replies: Replies, ms: seq<Message>, k: nat, i: nat, size: nat, delay: nat, p: Progress)
    requires forall c :: replies(c) == Ok
    requires size >= 1 && |ms| > 0 && i == k * size
    requires k <= ChunkCount(|ms|, size)
    requires Ideal(p, |ms|, size, delay, Min(i, |ms|), if i < |ms| then 2 * k else 2 * k - 1)
    ensures Chunks(replies, ms, i, size, delay, p).Continue?
    ensures Ideal(Chunks(replies, ms, i, size, delay, p).p, |ms|, size, delay, |ms|, 2 * ChunkCount(|ms|, size) - 1)
    decreases |ms| - i
  {
    ChunkCountBound(|ms|, size, k);
    if i < |ms| {
      ChunkAllOk(replies, ms, k, i, size, delay, p);
      assert (k + 1) * size == i + size;
      ChunksAllOk(replies, ms, k + 1, i + size, size, delay, AfterChunk(replies, ms, i, size, delay, p));
    }
  }

  /** The whole run when every call is accepted, as sequences. */
  lemma AcceptedRun(replies: Replies, ms: seq<Message>, size: nat, delay: nat)
    requires forall c :: replies(c) == Ok
    requires size >= 1 && ms != []
    ensures var out := SendBatch(replies, ms, size, delay);
      out.result == Returned(true) && out.last.sent == |ms| &&
      OkCopies(out.last.events) == Upto(|ms|) &&
      Outline(out.last.events) == Plan(|ms|, size, delay, 2 * ChunkCount(|ms|, size) - 1)
  {
    var start := Progress(0, 0, []);
    assert OkCopies([]) == [] && Outline([]) == [];
    ChunkCountBound(|ms|, size, 0);
    ChunksAllOk(replies, ms, 0, 0, size, delay, start);
    var c := Chunks(replies, ms, 0, size, delay, start);
    var e := Called(Summary(c.p.sent, |ms|), Ok);
    assert replies(c.p.calls) == Ok;
    OutlineAppend(c.p.events, e);
  }

  lemma UptoShape(j: nat)
    ensures |Upto(j)| == j && forall t :: 0 <= t < j ==> Upto(j)[t] == t
  {
    if j > 0 {
      UptoAt(j, 0);
    }
    forall t | 0 <= t < j
      ensures Upto(j)[t] == t
    {
      UptoAt(j, t);
    }
  }

  /** The whole intended outline for `n` messages: notices at even positions, pauses between. */
  lemma PlanShape(n: nat, size: nat, delay: nat)
    requires size >= 1 && n > 0
    ensures var total := ChunkCount(n, size);
      var plan := Plan(n, size, delay, 2 * total - 1);
      total >= 1 && |plan| == 2 * total - 1 &&
      (forall k :: 0 <= k < total ==> plan[2 * k] == Called(ChunkNotice(n, size, k), Ok)) &&
      (forall k :: 0 <= k < total - 1 ==> plan[2 * k + 1] == Slept(ChunkGap(delay)))
  {
    ChunkCountBound(n, size, 0);
    var total := ChunkCount(n, size);
    var m := 2 * total - 1;
    PlanAt(n, size, delay, m, 0);
    forall k | 0 <= k < total
      ensures Plan(n, size, delay, m)[2 * k] == Called(ChunkNotice(n, size, k), Ok)
    {
      PlanAt(n, size, delay, m, 2 * k);
      assert OutlineAt(n, size, delay, 2 * k) == Called(ChunkNotice(n, size, k), Ok);
    }
    forall k | 0 <= k < total - 1
      ensures Plan(n, size, delay, m)[2 * k + 1] == Slept(ChunkGap(delay))
    {
      PlanAt(n, size, delay, m, 2 * k + 1);
      assert OutlineAt(n, size, delay, 2 * k + 1) == Slept(ChunkGap(delay));
    }
  }

  /** When the client accepts every call, a non-empty batch returns true having
      copied every message exactly once, in input order, with `sent_count` equal to
      the number of messages. Its outline is notice 1, pause, notice 2, ..., notice N
      for N = ceil(n / batch_size): each notice comes before its chunk and states its
      number, N and its size, and the pause between chunks occurs N - 1 times. */
  lemma AllAccepted(replies: Replies, ms: seq<Message>, size: nat, delay: nat)
    requires forall c :: replies(c) == Ok
    requires size >= 1 && ms != []
    ensures var out := SendBatch(replies, ms, size, delay);
      var ok := OkCopies(out.last.events);
      var outline := Outline(out.last.events);
      out.result == Returned(true) && out.last.sent == |ms| &&
      |ok| == |ms| && (forall t :: 0 <= t < |ms| ==> ok[t] == t) &&
      |outline| == 2 * ChunkCount(|ms|, size) - 1 &&
      (forall k :: 0 <= k < ChunkCount(|ms|, size) ==> outline[2 * k] == Called(ChunkNotice(|ms|, size, k), Ok)) &&
      (forall k :: 0 <= k < ChunkCount(|ms|, size) - 1 ==> outline[2 * k + 1] == Slept(ChunkGap(delay)))
  {
    AcceptedRun(replies, ms, size, delay);
    UptoShape(|ms|);
    PlanShape(|ms|, size, delay);
  }

  // ---------------------------------------------------------------------------
  // Any completed batch

  /** An item's client calls and pauses are not part of the outline. */
  lemma ItemOutline(replies: Replies, ms: seq<Message>, j: nat, p: Progress)
    requires j < |ms|
    ensures Outline(ItemStep(replies, ms, j, p).p.events) == Outline(p.events)
  {
    var seg := ItemAppends(replies, ms, j, p);
    OutlineSkips(p.events, seg);
  }

  lemma {:induction false} OutlineSkips(events: seq<SendEvent>, seg: seq<SendEvent>)
    requires forall t :: 0 <= t < |seg| ==> !IsMark(seg[t])
    ensures Outline(events + seg) == Outline(events)
    decreases |seg|
  {
    if seg != [] {
      var init := seg[..|seg| - 1];
      assert events + seg == (events + init) + [seg[|seg| - 1]];
      assert !IsMark(seg[|seg| - 1]);
      OutlineSkips(events, init);
      OutlineAppend(events + init, seg[|seg| - 1]);
    } else {
      assert events + seg == events;
    }
  }

  lemma {:induction false} ItemsOutline(replies: Replies, ms: seq<Message>, j: nat, end: nat, p: Progress)
    requires j <= end <= |ms|
    ensures Outline(Items(replies, ms, j, end, p).p.events) == Outline(p.events)
    decreases end - j
  {
    if j < end {
      ItemOutline(replies, ms, j, p);
      var q := ItemStep(replies, ms, j, p);
      if q.Continue? {
        ItemsOutline(replies, ms, j + 1, end, q.p);
      }
    }
  }

  lemma PlanNotice(events: seq<SendEvent>, n: nat, size: nat, delay: nat, k: nat)
    requires size >= 1 && Outline(events) == Plan(n, size, delay, 2 * k)
    ensures Outline(events + [Called(ChunkNotice(n, size, k), Ok)]) == Plan(n, size, delay, 2 * k + 1)
  {
    OutlineAppend(events, Called(ChunkNotice(n, size, k), Ok));
    assert OutlineAt(n, size, delay, 2 * k) == Called(ChunkNotice(n, size, k), Ok);
  }

  lemma PlanGap(events: seq<SendEvent>, n: nat, size: nat, delay: nat, k: nat)
    requires size >= 1 && Outline(events) == Plan(n, size, delay, 2 * k + 1)
    ensures Outline(events + [Slept(ChunkGap(delay))]) == Plan(n, size, delay, 2 * k + 2)
  {
    OutlineAppend(events, Slept(ChunkGap(delay)));
    assert OutlineAt(n, size, delay, 2 * k + 1) == Slept(ChunkGap(delay));
  }

  /** The notice of a chunk that goes through, then its items, extend the outline by the notice. */
  lemma ChunkItemsOutline(replies: Replies, ms: seq<Message>, k: nat, i: nat, size: nat, delay: nat, p: Progress)
    requires size >= 1 && i == k * size && i < |ms| && replies(p.calls) == Ok
    requires Outline(p.events) == Plan(|ms|, size, delay, 2 * k)
    ensures var p1 := Call(replies, p, ChunkHeader(|ms|, i, size));
      Outline(Items(replies, ms, i, Min(i + size, |ms|), p1).p.events) == Plan(|ms|, size, delay, 2 * k + 1)
  {
    var p1 := Call(replies, p, ChunkHeader(|ms|, i, size));
    NoticeOfChunk(|ms|, size, k);
    assert p1.events == p.events + [Called(ChunkNotice(|ms|, size, k), Ok)];
    PlanNotice(p.events, |ms|, size, delay, k);
    ItemsOutline(replies, ms, i, Min(i + size, |ms|), p1);
  }

  /** A chunk that goes through adds its notice and, unless it is the last, the pause
      after it to the outline, whatever happened to its items. */
  lemma ChunkOutline(replies: Replies, ms: seq<Message>, k: nat, i: nat, size: nat, delay: nat, p: Progress)
    requires size >= 1 && i == k * size && i < |ms| && replies(p.calls) == Ok
    requires Outline(p.events) == Plan(|ms|, size, delay, 2 * k)
    ensures Outline(AfterChunk(replies, ms, i, size, delay, p).events) ==
      Plan(|ms|, size, delay, if i + size < |ms| then 2 * (k + 1) else 2 * (k + 1) - 1)
  {
    var end := Min(i + size, |ms|);
    var p1 := Call(replies, p, ChunkHeader(|ms|, i, size));
    var q := Items(replies, ms, i, end, p1).p;
    ChunkItemsOutline(replies, ms, k, i, size, delay, p);
    if i + size < |ms| {
      assert AfterChunk(replies, ms, i, size, delay, p) == Sleep(q, ChunkGap(delay));
      PlanGap(q.events, |ms|, size, delay, k);
    } else {
      assert AfterChunk(replies, ms, i, size, delay, p) == q;
    }
  }

  /** The outline of the trace so far is the first `m` entries of the intended one. */
  predicate OutlineSoFar(p: Progress, n: nat, size: nat, delay: nat, m: nat)
    requires size >= 1
  {
    Outline(p.events) == Plan(n, size, delay, m)
  }

  /** A chunk either stops the batch or hands over to the next with the outline so far. */
  lemma OutlineHandOff(replies: Replies, ms: seq<Message>, k: nat, i: nat, size: nat, delay: nat, p: Progress)
    requires size >= 1 && i == k * size && i < |ms|
    requires OutlineSoFar(p, |ms|, size, delay, 2 * k)
    ensures var next := AfterChunk(replies, ms, i, size, delay, p);
      var c := Chunks(replies, ms, i, size, delay, p);
      c.Abort? ||
      (c == Chunks(replies, ms, i + size, size, delay, next) &&
       i + size == (k + 1) * size && k + 1 <= ChunkCount(|ms|, size) &&
       OutlineSoFar(next, |ms|, size, delay, if i + size < |ms| then 2 * (k + 1) else 2 * (k + 1) - 1))
  {
    var p1 := Call(replies, p, ChunkHeader(|ms|, i, size));
    ChunkStops(replies, ms, i, size, delay, p);
    if replies(p.calls) == Ok && Items(replies, ms, i, Min(i + size, |ms|), p1).Continue? {
      NextChunk(|ms|, size, k);
      ChunkOutline(replies, ms, k, i, size, delay, p);
      ChunkPasses(replies, ms, i, size, delay, p);
    }
  }

  lemma {:induction false} ChunksOutline(replies: Replies, ms: seq<Message>, k: nat, i: nat, size: nat, delay: nat, p: Progress)
    requires size >= 1 && |ms| > 0 && i == k * size
    requires k <= ChunkCount(|ms|, size)
    requires OutlineSoFar(p, |ms|, size, delay, if i < |ms| then 2 * k else 2 * k - 1)
    ensures Chunks(replies, ms, i, size, delay, p).Continue? ==>
      OutlineSoFar(Chunks(replies, ms, i, size, delay, p).p, |ms|, size, delay, 2 * ChunkCount(|ms|, size) - 1)
    decreases |ms| - i
  {
    if i < |ms| {
      OutlineHandOff(replies, ms, k, i, size, delay, p);
      if Chunks(replies, ms, i, size, delay, p).Continue? {
        ChunksOutline(replies, ms, k + 1, i + size, size, delay, AfterChunk(replies, ms, i, size, delay, p));
      }
    } else {
      LastChunkPassed(|ms|, size, k);
      assert Chunks(replies, ms, i, size, delay, p) == Continue(p);
    }
  }

  lemma NextChunk(n: nat, size: nat, k: nat)
    requires size >= 1 && k * size < n
    ensures k * size + size == (k + 1) * size && k + 1 <= ChunkCount(n, size)
  {
    ChunkCountBound(n, size, k);
  }

  lemma LastChunkPassed(n: nat, size: nat, k: nat)
    requires size >= 1 && n <= k * size && k <= ChunkCount(n, size)
    ensures k == ChunkCount(n, size)
  {
    ChunkCountBound(n, size, k);
  }

  /** A batch that returns true has the intended outline. */
  lemma CompletedPlan(replies: Replies, ms: seq<Message>, size: nat, delay: nat)
    requires size >= 1 && ms != []
    ensures var out := SendBatch(replies, ms, size, delay);
      out.result == Returned(true) ==> Outline(out.last.events) == Plan(|ms|, size, delay, 2 * ChunkCount(|ms|, size) - 1)
  {
    var start := Progress(0, 0, []);
    assert Outline([]) == [];
    ChunkCountBound(|ms|, size, 0);
    ChunksOutline(replies, ms, 0, 0, size, delay, start);
    var c := Chunks(replies, ms, 0, size, delay, start);
    if c.Continue? {
      OutlineAppend(c.p.events, Called(Summary(c.p.sent, |ms|), replies(c.p.calls)));
    }
  }

  /** Whatever the client answers, a batch that returns true has the outline notice 1,
      pause, notice 2, ..., notice N for N = ceil(n / batch_size): every notice states
      its number, N and its chunk's size, and the pause between chunks occurs N - 1
      times. Retries and text-only substitutes leave the outline as it is. */
  lemma CompletedOutline(replies: Replies, ms: seq<Message>, size: nat, delay: nat)
    requires size >= 1 && ms != []
    ensures var out := SendBatch(replies, ms, size, delay);
      var outline := Outline(out.last.events);
      out.result == Returned(true) ==>
        |outline| == 2 * ChunkCount(|ms|, size) - 1 &&
        (forall k :: 0 <= k < ChunkCount(|ms|, size) ==> outline[2 * k] == Called(ChunkNotice(|ms|, size, k), Ok)) &&
        (forall k :: 0 <= k < ChunkCount(|ms|, size) - 1 ==> outline[2 * k + 1] == Slept(ChunkGap(delay)))
  {
    CompletedPlan(replies, ms, size, delay);
    PlanShape(|ms|, size, delay);
  }


  // ---------------------------------------------------------------------------
  // The per-item policy, as the trace shows it

  predicate IsCopy(e: SendEvent) {
    e.Called? && e.action.Copy?
  }

  predicate IsBackoff(e: SendEvent) {
    e.Slept? && e.pause.Backoff?
  }

  predicate IsText(e: SendEvent) {
    e.Called? && e.action.TextOnly?
  }

  /** Position `t` holds a message's first copy: a copy that does not follow a backoff. */
  predicate FirstCopy(events: seq<SendEvent>, t: int) {
    0 <= t < |events| && IsCopy(events[t]) && (t == 0 || !IsBackoff(events[t - 1]))
  }

  /** What follows a message's first copy: after a success, the half-second pause;
      after a FloodWait of `x`, a backoff of `x + 2` seconds and one more copy of the
      same message; after another failure, the text-only send of the message's text,
      exactly when it has one. */
  predicate Handled(events: seq<SendEvent>, ms: seq<Message>, t: int)
    requires FirstCopy(events, t)
  {
    var e := events[t];
    var j := e.action.index;
    (e.reply == Ok ==> t + 1 < |events| && events[t + 1] == Slept(ItemGap)) &&
    (e.reply.Flood? ==>
      t + 2 < |events| && events[t + 1] == Slept(Backoff(e.reply.seconds + 2)) &&
      IsCopy(events[t + 2]) && events[t + 2].action.index == j) &&
    (e.reply == Fail && j < |ms| ==>
      (Fallback(ms[j]).Some? ==>
        t + 1 < |events| && events[t + 1].Called? && events[t + 1].action == TextOnly(j, Fallback(ms[j]).value)) &&
      (Fallback(ms[j]).None? ==> t + 1 == |events| || !IsText(events[t + 1])))
  }

  predicate FollowsPolicy(events: seq<SendEvent>, ms: seq<Message>) {
    forall t :: 0 <= t < |events| && FirstCopy(events, t) ==> Handled(events, ms, t)
  }

  /** Messages are copied in input order, and a message is copied again only right
      after a backoff. */
  predicate CopiesInOrder(events: seq<SendEvent>) {
    forall t, u :: 0 <= t < u < |events| && IsCopy(events[t]) && IsCopy(events[u]) ==>
      events[t].action.index < events[u].action.index ||
      (events[t].action.index == events[u].action.index && u == t + 2 && IsBackoff(events[t + 1]))
  }

  predicate CopiesWithin(events: seq<SendEvent>, lo: nat, hi: nat) {
    forall t :: 0 <= t < |events| && IsCopy(events[t]) ==> lo <= events[t].action.index < hi
  }

  /** A trace that does not stop between a backoff and the retry. */
  predicate Open(events: seq<SendEvent>) {
    events == [] || !IsBackoff(events[|events| - 1])
  }

  /** What the trace shows once the items before `bound` have been handled. */
  predicate Orderly(events: seq<SendEvent>, ms: seq<Message>, bound: nat) {
    FollowsPolicy(events, ms) && CopiesInOrder(events) && CopiesWithin(events, 0, bound) && Open(events)
  }

  lemma PolicyConcat(a: seq<SendEvent>, b: seq<SendEvent>, ms: seq<Message>)
    requires FollowsPolicy(a, ms) && FollowsPolicy(b, ms) && Open(a)
    requires b == [] || !IsText(b[0])
    ensures FollowsPolicy(a + b, ms)
  {
    var ab := a + b;
    forall t | FirstCopy(ab, t)
      ensures Handled(ab, ms, t)
    {
      if t < |a| {
        assert ab[t] == a[t];
        assert t > 0 ==> ab[t - 1] == a[t - 1];
        assert FirstCopy(a, t);
        assert t + 1 < |a| ==> ab[t + 1] == a[t + 1];
        assert t + 2 < |a| ==> ab[t + 2] == a[t + 2];
        assert t + 1 == |a| && b != [] ==> ab[t + 1] == b[0];
      } else {
        var s := t - |a|;
        assert ab[t] == b[s];
        assert s > 0 ==> ab[t - 1] == b[s - 1];
        assert FirstCopy(b, s);
        assert s + 1 < |b| ==> ab[t + 1] == b[s + 1];
        assert s + 2 < |b| ==> ab[t + 2] == b[s + 2];
      }
    }
  }

  lemma InOrderConcat(a: seq<SendEvent>, b: seq<SendEvent>, mid: nat, bound: nat)
    requires CopiesInOrder(a) && CopiesWithin(a, 0, mid)
    requires CopiesInOrder(b) && CopiesWithin(b, mid, bound) && mid <= bound
    ensures CopiesInOrder(a + b) && CopiesWithin(a + b, 0, bound)
  {
    var ab := a + b;
    forall t, u | 0 <= t < u < |ab| && IsCopy(ab[t]) && IsCopy(ab[u])
      ensures ab[t].action.index < ab[u].action.index ||
        (ab[t].action.index == ab[u].action.index && u == t + 2 && IsBackoff(ab[t + 1]))
    {
      if u < |a| {
        assert ab[t] == a[t] && ab[u] == a[u] && ab[t + 1] == a[t + 1];
      } else if t >= |a| {
        assert ab[t] == b[t - |a|] && ab[u] == b[u - |a|] && ab[t + 1] == b[t + 1 - |a|];
      } else {
        assert ab[t] == a[t] && ab[u] == b[u - |a|];
      }
    }
    forall t | 0 <= t < |ab| && IsCopy(ab[t])
      ensures ab[t].action.index < bound
    {
      if t < |a| {
        assert ab[t] == a[t];
      } else {
        assert ab[t] == b[t - |a|];
        assert IsCopy(b[t - |a|]);
      }
    }
  }

  /** An event other than a copy, a text-only send or a backoff keeps the trace orderly. */
  lemma OrderlyAppend(events: seq<SendEvent>, ms: seq<Message>, bound: nat, e: SendEvent)
    requires Orderly(events, ms, bound) && !IsCopy(e) && !IsText(e) && !IsBackoff(e)
    ensures Orderly(events + [e], ms, bound)
  {
    assert !FirstCopy([e], 0);
    PolicyConcat(events, [e], ms);
    InOrderConcat(events, [e], bound, bound);
  }

  /** The events one item appends: they follow the policy, copy only message `j`,
      hold no notice or chunk pause, and end outside a backoff. */
  predicate ItemSegment(seg: seq<SendEvent>, ms: seq<Message>, j: nat) {
    seg != [] && IsCopy(seg[0]) && FollowsPolicy(seg, ms) && CopiesInOrder(seg) &&
    CopiesWithin(seg, j, j + 1) && Open(seg) && forall t :: 0 <= t < |seg| ==> !IsMark(seg[t])
  }

  lemma ItemAppends(replies: Replies, ms: seq<Message>, j: nat, p: Progress) returns (seg: seq<SendEvent>)
    requires j < |ms|
    ensures ItemStep(replies, ms, j, p).p.events == p.events + seg
    ensures ItemSegment(seg, ms, j)
    ensures FirstCopies(seg) == [j]
    ensures OnlyFirstCopiesFail(seg, if ItemStep(replies, ms, j, p).Continue? then |seg| else |seg| - 1)
    ensures ItemStep(replies, ms, j, p).Abort? ==> !FirstCopy(seg, |seg| - 1)
  {
    var first := replies(p.calls);
    var second := replies(p.calls + 1);
    match first
    case Ok =>
      seg := [Called(Copy(j), Ok), Slept(ItemGap)];
      OkSegment(ms, j);
      OkAttempt(j);
    case Flood(x) =>
      seg := [Called(Copy(j), Flood(x)), Slept(Backoff(x + 2)), Called(Copy(j), second)];
      FloodSegment(ms, j, x, second);
      FloodAttempt(j, x, second);
    case Fail =>
      if Fallback(ms[j]).Some? {
        seg := [Called(Copy(j), Fail), Called(TextOnly(j, Fallback(ms[j]).value), second)];
        TextSegment(ms, j, second);
        TextAttempt(j, Fallback(ms[j]).value, second);
      } else {
        seg := [Called(Copy(j), Fail)];
        FailSegment(ms, j);
        FailAttempt(j);
      }
  }

  lemma OkSegment(ms: seq<Message>, j: nat)
    ensures ItemSegment([Called(Copy(j), Ok), Slept(ItemGap)], ms, j)
  {
    var seg := [Called(Copy(j), Ok), Slept(ItemGap)];
    assert Handled(seg, ms, 0);
  }

  lemma FloodSegment(ms: seq<Message>, j: nat, x: nat, second: Reply)
    ensures ItemSegment([Called(Copy(j), Flood(x)), Slept(Backoff(x + 2)), Called(Copy(j), second)], ms, j)
  {
    var seg := [Called(Copy(j), Flood(x)), Slept(Backoff(x + 2)), Called(Copy(j), second)];
    assert Handled(seg, ms, 0);
    assert !FirstCopy(seg, 2);
  }

  lemma TextSegment(ms: seq<Message>, j: nat, second: Reply)
    requires j < |ms| && Fallback(ms[j]).Some?
    ensures ItemSegment([Called(Copy(j), Fail), Called(TextOnly(j, Fallback(ms[j]).value), second)], ms, j)
  {
    var seg := [Called(Copy(j), Fail), Called(TextOnly(j, Fallback(ms[j]).value), second)];
    assert Handled(seg, ms, 0);
  }

  lemma FailSegment(ms: seq<Message>, j: nat)
    requires j < |ms| && Fallback(ms[j]).None?
    ensures ItemSegment([Called(Copy(j), Fail)], ms, j)
  {
    assert Handled([Called(Copy(j), Fail)], ms, 0);
  }

  lemma ItemOrderly(replies: Replies, ms: seq<Message>, j: nat, p: Progress)
    requires j < |ms| && Orderly(p.events, ms, j)
    ensures Orderly(ItemStep(replies, ms, j, p).p.events, ms, j + 1)
  {
    var seg := ItemAppends(replies, ms, j, p);
    PolicyConcat(p.events, seg, ms);
    InOrderConcat(p.events, seg, j, j + 1);
  }

  lemma {:induction false} ItemsOrderly(replies: Replies, ms: seq<Message>, j: nat, end: nat, p: Progress)
    requires j <= end <= |ms| && Orderly(p.events, ms, j)
    ensures Orderly(Items(replies, ms, j, end, p).p.events, ms, end)
    decreases end - j
  {
    if j < end {
      ItemOrderly(replies, ms, j, p);
      var q := ItemStep(replies, ms, j, p);
      if q.Continue? {
        assert Items(replies, ms, j, end, p) == Items(replies, ms, j + 1, end, q.p);
        ItemsOrderly(replies, ms, j + 1, end, q.p);
      } else {
        assert Items(replies, ms, j, end, p) == q;
      }
    }
  }

  /** One chunk keeps the trace orderly, up to the end of the batch when it stops it
      and up to its last item when it hands over to the next. */
  lemma ChunkOrderly(replies: Replies, ms: seq<Message>, i: nat, size: nat, delay: nat, p: Progress)
    requires size >= 1 && i < |ms| && Orderly(p.events, ms, i)
    ensures var end := Min(i + size, |ms|);
      var p1 := Call(replies, p, ChunkHeader(|ms|, i, size));
      var next := AfterChunk(replies, ms, i, size, delay, p);
      if replies(p.calls) == Ok && Items(replies, ms, i, end, p1).Continue? then
        Chunks(replies, ms, i, size, delay, p) == Chunks(replies, ms, i + size, size, delay, next) &&
        Orderly(next.events, ms, Min(i + size, |ms|))
      else Orderly(Chunks(replies, ms, i, size, delay, p).p.events, ms, |ms|)
  {
    var end := Min(i + size, |ms|);
    var a := ChunkHeader(|ms|, i, size);
    var p1 := Call(replies, p, a);
    OrderlyAppend(p.events, ms, i, Called(a, replies(p.calls)));
    ItemsOrderly(replies, ms, i, end, p1);
    ChunkStops(replies, ms, i, size, delay, p);
    if replies(p.calls) == Ok && Items(replies, ms, i, end, p1).Continue? {
      var q := Items(replies, ms, i, end, p1).p;
      if i + size < |ms| {
        OrderlyAppend(q.events, ms, end, Slept(ChunkGap(delay)));
      }
      ChunkPasses(replies, ms, i, size, delay, p);
    }
  }

  lemma {:induction false} ChunksOrderly(replies: Replies, ms: seq<Message>, i: nat, size: nat, delay: nat, p: Progress)
    requires size >= 1 && Orderly(p.events, ms, Min(i, |ms|))
    ensures Orderly(Chunks(replies, ms, i, size, delay, p).p.events, ms, |ms|)
    decreases |ms| - i
  {
    if i < |ms| {
      var p1 := Call(replies, p, ChunkHeader(|ms|, i, size));
      ChunkOrderly(replies, ms, i, size, delay, p);
      if replies(p.calls) == Ok && Items(replies, ms, i, Min(i + size, |ms|), p1).Continue? {
        ChunksOrderly(replies, ms, i + size, size, delay, AfterChunk(replies, ms, i, size, delay, p));
      }
    }
  }

  /** Whatever the client answers, the whole trace of a batch follows the per-item
      policy: a first copy that succeeds is followed by the half-second pause; one
      that meets a FloodWait of `x` by a backoff of `x + 2` seconds and exactly one
      more copy of that message; one that fails otherwise by the text-only send of
      the message's text exactly when it has one. Messages are copied in input order. */
  lemma BatchFollowsPolicy(replies: Replies, ms: seq<Message>, size: nat, delay: nat)
    requires size >= 1
    ensures var events := SendBatch(replies, ms, size, delay).last.events;
      FollowsPolicy(events, ms) && CopiesInOrder(events) && CopiesWithin(events, 0, |ms|)
  {
    if ms != [] {
      var start := Progress(0, 0, []);
      ChunksOrderly(replies, ms, 0, size, delay, start);
      var c := Chunks(replies, ms, 0, size, delay, start);
      if c.Continue? {
        var q := Call(replies, c.p, Summary(c.p.sent, |ms|));
        OrderlyAppend(c.p.events, ms, |ms|, Called(Summary(c.p.sent, |ms|), replies(c.p.calls)));
        if replies(c.p.calls) != Ok {
          OrderlyAppend(q.events, ms, |ms|, Called(ErrorNotice(q.sent), replies(q.calls)));
        }
      } else {
        OrderlyAppend(c.p.events, ms, |ms|, Called(ErrorNotice(c.p.sent), replies(c.p.calls)));
      }
    }
  }

  // ---------------------------------------------------------------------------
  // Every message attempted; every other failure ends the batch

  /** The indices of the messages' first copies, in trace order. */
  function FirstCopies(events: seq<SendEvent>): seq<nat> {
    if events == [] then []
    else
      var n := |events| - 1;
      FirstCopies(events[..n]) + (if FirstCopy(events, n) then [events[n].action.index] else [])
  }

  /** Among the first `n` events, the only client calls that failed are first copies:
      a first copy that meets a FloodWait or another exception is handled in place,
      while a failed notice, retry, text-only send or summary goes to the `except`. */
  predicate OnlyFirstCopiesFail(events: seq<SendEvent>, n: int) {
    forall t :: 0 <= t < n && t < |events| && events[t].Called? && events[t].reply != Ok ==> FirstCopy(events, t)
  }

  /** The trace of a batch that an exception stops: the call that raised is not a
      first copy, and every failed call before it is one. */
  predicate Stopped(events: seq<SendEvent>) {
    events != [] && !FirstCopy(events, |events| - 1) && OnlyFirstCopiesFail(events, |events| - 1)
  }

  /** The error notice that follows leaves the stopping call and what came before as they were. */
  lemma StoppedThenNotice(events: seq<SendEvent>, e: SendEvent)
    requires Stopped(events)
    ensures var all := events + [e];
      OnlyFirstCopiesFail(all, |all| - 2) && !FirstCopy(all, |all| - 2)
  {
    var all := events + [e];
    TolerantExtend(events, [e], |events| - 1);
    assert all[|all| - 2] == events[|events| - 1];
    assert |events| > 1 ==> all[|all| - 3] == events[|events| - 2];
  }

  /** After items `0 .. j - 1` with no exception: each message's first copy once, in
      order, and no failure other than a first copy. */
  predicate Covered(events: seq<SendEvent>, j: nat) {
    Open(events) && FirstCopies(events) == Upto(j) && OnlyFirstCopiesFail(events, |events|)
  }

  lemma {:induction false} FirstCopiesConcat(a: seq<SendEvent>, b: seq<SendEvent>)
    requires Open(a)
    ensures FirstCopies(a + b) == FirstCopies(a) + FirstCopies(b)
    decreases |b|
  {
    if b == [] {
      assert a + b == a;
    } else {
      var init := b[..|b| - 1];
      var ab := a + b;
      assert ab[..|ab| - 1] == a + init;
      FirstCopiesConcat(a, init);
      assert ab[|ab| - 1] == b[|b| - 1];
      if |b| > 1 {
        assert ab[|ab| - 2] == b[|b| - 2];
      }
      assert FirstCopy(ab, |ab| - 1) <==> FirstCopy(b, |b| - 1);
    }
  }

  lemma FirstCopiesSnoc(events: seq<SendEvent>, e: SendEvent)
    ensures FirstCopies(events + [e]) ==
      FirstCopies(events) + (if FirstCopy(events + [e], |events|) then [e.action.index] else [])
  {
    assert (events + [e])[..|events|] == events;
  }

  lemma OkAttempt(j: nat)
    ensures var seg := [Called(Copy(j), Ok), Slept(ItemGap)];
      FirstCopies(seg) == [j] && OnlyFirstCopiesFail(seg, |seg|)
  {
    var a := Called(Copy(j), Ok);
    FirstCopiesSnoc([], a);
    FirstCopiesSnoc([a], Slept(ItemGap));
  }

  lemma FloodAttempt(j: nat, x: nat, second: Reply)
    ensures var seg := [Called(Copy(j), Flood(x)), Slept(Backoff(x + 2)), Called(Copy(j), second)];
      FirstCopies(seg) == [j] && OnlyFirstCopiesFail(seg, |seg| - 1) && !FirstCopy(seg, |seg| - 1) &&
      (second == Ok ==> OnlyFirstCopiesFail(seg, |seg|))
  {
    var a := Called(Copy(j), Flood(x));
    var b := Slept(Backoff(x + 2));
    FirstCopiesSnoc([], a);
    FirstCopiesSnoc([a], b);
    FirstCopiesSnoc([a, b], Called(Copy(j), second));
    assert [a] + [b] == [a, b];
    assert [a, b] + [Called(Copy(j), second)] == [a, b, Called(Copy(j), second)];
    assert FirstCopy([a, b, Called(Copy(j), second)], 0);
  }

  lemma TextAttempt(j: nat, text: string, second: Reply)
    ensures var seg := [Called(Copy(j), Fail), Called(TextOnly(j, text), second)];
      FirstCopies(seg) == [j] && OnlyFirstCopiesFail(seg, |seg| - 1) && !FirstCopy(seg, |seg| - 1) &&
      (second == Ok ==> OnlyFirstCopiesFail(seg, |seg|))
  {
    var a := Called(Copy(j), Fail);
    FirstCopiesSnoc([], a);
    FirstCopiesSnoc([a], Called(TextOnly(j, text), second));
    assert FirstCopy([a, Called(TextOnly(j, text), second)], 0);
  }

  lemma FailAttempt(j: nat)
    ensures var seg := [Called(Copy(j), Fail)];
      FirstCopies(seg) == [j] && OnlyFirstCopiesFail(seg, |seg|)
  {
    FirstCopiesSnoc([], Called(Copy(j), Fail));
  }

  lemma TolerantConcat(a: seq<SendEvent>, b: seq<SendEvent>, m: nat)
    requires Open(a) && OnlyFirstCopiesFail(a, |a|) && OnlyFirstCopiesFail(b, m) && m <= |b|
    ensures OnlyFirstCopiesFail(a + b, |a| + m)
  {
    var ab := a + b;
    forall t | 0 <= t < |a| + m && ab[t].Called? && ab[t].reply != Ok
      ensures FirstCopy(ab, t)
    {
      if t < |a| {
        assert ab[t] == a[t];
        assert FirstCopy(a, t);
        assert t > 0 ==> ab[t - 1] == a[t - 1];
      } else {
        assert ab[t] == b[t - |a|];
        assert FirstCopy(b, t - |a|);
        assert t > |a| ==> ab[t - 1] == b[t - 1 - |a|];
      }
    }
  }

  lemma TolerantExtend(a: seq<SendEvent>, b: seq<SendEvent>, n: int)
    requires OnlyFirstCopiesFail(a, n) && n <= |a|
    ensures OnlyFirstCopiesFail(a + b, n)
  {
    var ab := a + b;
    forall t | 0 <= t < n && ab[t].Called? && ab[t].reply != Ok
      ensures FirstCopy(ab, t)
    {
      assert ab[t] == a[t];
      assert FirstCopy(a, t);
      assert t > 0 ==> ab[t - 1] == a[t - 1];
    }
  }

  /** A notice, a pause, the summary or the error notice adds no first copy; when it
      succeeds, it keeps the trace covered. */
  lemma CoveredAppend(events: seq<SendEvent>, j: nat, e: SendEvent)
    requires Covered(events, j) && !IsCopy(e) && !IsBackoff(e)
    ensures Stopped(events + [e])
    ensures e.Slept? || e.reply == Ok ==> Covered(events + [e], j)
  {
    assert [e][..0] == [];
    assert FirstCopies([e]) == [];
    FirstCopiesConcat(events, [e]);
    TolerantExtend(events, [e], |events|);
    if e.Slept? || e.reply == Ok {
      TolerantConcat(events, [e], 1);
    }
  }

  lemma ItemCovers(replies: Replies, ms: seq<Message>, j: nat, p: Progress)
    requires j < |ms| && Covered(p.events, j)
    ensures var s := ItemStep(replies, ms, j, p);
      if s.Continue? then Covered(s.p.events, j + 1) else Stopped(s.p.events)
  {
    var seg := ItemAppends(replies, ms, j, p);
    var s := ItemStep(replies, ms, j, p);
    var all := p.events + seg;
    FirstCopiesConcat(p.events, seg);
    TolerantConcat(p.events, seg, if s.Continue? then |seg| else |seg| - 1);
    assert all[|all| - 1] == seg[|seg| - 1];
    if s.Abort? && |seg| > 1 {
      assert all[|all| - 2] == seg[|seg| - 2];
    }
  }

  lemma {:induction false} ItemsCover(replies: Replies, ms: seq<Message>, j: nat, end: nat, p: Progress)
    requires j <= end <= |ms| && Covered(p.events, j)
    ensures var s := Items(replies, ms, j, end, p);
      if s.Continue? then Covered(s.p.events, end) else Stopped(s.p.events)
    decreases end - j
  {
    if j < end {
      ItemCovers(replies, ms, j, p);
      var q := ItemStep(replies, ms, j, p);
      if q.Continue? {
        assert Items(replies, ms, j, end, p) == Items(replies, ms, j + 1, end, q.p);
        ItemsCover(replies, ms, j + 1, end, q.p);
      } else {
        assert Items(replies, ms, j, end, p) == q;
      }
    }
  }

  /** One chunk either hands over to the next with its messages attempted, or ends
      the batch right after a failed call. */
  lemma ChunkCovers(replies: Replies, ms: seq<Message>, i: nat, size: nat, delay: nat, p: Progress)
    requires size >= 1 && i < |ms| && Covered(p.events, i)
    ensures var end := Min(i + size, |ms|);
      var p1 := Call(replies, p, ChunkHeader(|ms|, i, size));
      var next := AfterChunk(replies, ms, i, size, delay, p);
      var c := Chunks(replies, ms, i, size, delay, p);
      if replies(p.calls) == Ok && Items(replies, ms, i, end, p1).Continue? then
        c == Chunks(replies, ms, i + size, size, delay, next) && Covered(next.events, end)
      else c.Abort? && Stopped(c.p.events)
  {
    var end := Min(i + size, |ms|);
    var a := ChunkHeader(|ms|, i, size);
    var p1 := Call(replies, p, a);
    CoveredAppend(p.events, i, Called(a, replies(p.calls)));
    ChunkStops(replies, ms, i, size, delay, p);
    if replies(p.calls) == Ok {
      ItemsCover(replies, ms, i, end, p1);
      if Items(replies, ms, i, end, p1).Continue? {
        var q := Items(replies, ms, i, end, p1).p;
        if i + size < |ms| {
          CoveredAppend(q.events, end, Slept(ChunkGap(delay)));
        }
        ChunkPasses(replies, ms, i, size, delay, p);
      }
    }
  }

  lemma {:induction false} ChunksCover(replies: Replies, ms: seq<Message>, i: nat, size: nat, delay: nat, p: Progress)
    requires size >= 1 && Covered(p.events, Min(i, |ms|))
    ensures var c := Chunks(replies, ms, i, size, delay, p);
      if c.Continue? then Covered(c.p.events, |ms|) else Stopped(c.p.events)
    decreases |ms| - i
  {
    if i < |ms| {
      var p1 := Call(replies, p, ChunkHeader(|ms|, i, size));
      ChunkCovers(replies, ms, i, size, delay, p);
      if replies(p.calls) == Ok && Items(replies, ms, i, Min(i + size, |ms|), p1).Continue? {
        ChunksCover(replies, ms, i + size, size, delay, AfterChunk(replies, ms, i, size, delay, p));
      }
    }
  }

  /** Whatever the client answers: a batch that returns true made each message's
      first copy once, in input order, and no client call of it failed except first
      copies; a batch that does not return true had no failure other than first
      copies before the call that ended it. */
  lemma BatchCovers(replies: Replies, ms: seq<Message>, size: nat, delay: nat)
    requires size >= 1
    ensures var out := SendBatch(replies, ms, size, delay);
      var events := out.last.events;
      (out.result == Returned(true) ==> FirstCopies(events) == Upto(|ms|) && OnlyFirstCopiesFail(events, |events|)) &&
      (ms != [] && out.result != Returned(true) ==>
         |events| >= 2 && OnlyFirstCopiesFail(events, |events| - 2) && !FirstCopy(events, |events| - 2))
  {
    if ms != [] {
      var start := Progress(0, 0, []);
      assert FirstCopies([]) == [] == Upto(0);
      ChunksCover(replies, ms, 0, size, delay, start);
      var c := Chunks(replies, ms, 0, size, delay, start);
      if c.Continue? {
        var e := Called(Summary(c.p.sent, |ms|), replies(c.p.calls));
        CoveredAppend(c.p.events, |ms|, e);
        var q := Call(replies, c.p, Summary(c.p.sent, |ms|));
        if replies(c.p.calls) != Ok {
          StoppedThenNotice(q.events, Called(ErrorNotice(q.sent), replies(q.calls)));
        }
      } else {
        StoppedThenNotice(c.p.events, Called(ErrorNotice(c.p.sent), replies(c.p.calls)));
      }
    }
  }

  /** Whatever the client answers, a batch that returns true attempted every message:
      the first copies are of messages 0, 1, ..., n - 1, once each and in that order,
      so a message after a FloodWait retry or a failed copy is never skipped. */
  lemma CompletedCoversAll(replies: Replies, ms: seq<Message>, size: nat, delay: nat)
    requires size >= 1
    ensures var out := SendBatch(replies, ms, size, delay);
      var attempted := FirstCopies(out.last.events);
      out.result == Returned(true) ==>
        |attempted| == |ms| && forall k :: 0 <= k < |ms| ==> attempted[k] == k
  {
    BatchCovers(replies, ms, size, delay);
    UptoShape(|ms|);
  }
}
