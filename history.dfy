/** A chat history that does not change while it is read, and what a range fetch
    collects from it. */
module StableHistory {
  import opened Common
  import opened MessageOrder
  import opened RangeFetch

  /** The messages of `hist` strictly older than `bound`, in history order. */
  function OlderThan(hist: seq<Message>, bound: nat): seq<Message> {
    if hist == [] then []
    else (if hist[0].id < bound then [hist[0]] else []) + OlderThan(hist[1..], bound)
  }

  function Take(ms: seq<Message>, n: nat): seq<Message> {
    if |ms| <= n then ms else ms[..n]
  }

  /** `get_chat_history` over a fixed newest-first history: the newest 100 messages
      older than the offset, whatever the attempt and the chat. */
  function FromHistory(hist: seq<Message>): History {
    (attempt: nat, chat: string, offset: nat) => Page(Take(OlderThan(hist, offset), PageLimit))
  }

  lemma {:induction false} OlderThanMember(hist: seq<Message>, bound: nat, x: Message)
    ensures x in OlderThan(hist, bound) <==> x in hist && x.id < bound
  {
    if hist != [] {
      OlderThanMember(hist[1..], bound, x);
      assert hist == [hist[0]] + hist[1..];
    }
  }

  lemma {:induction false} OlderThanDescending(hist: seq<Message>, bound: nat)
    requires StrictlyDescending(hist)
    ensures StrictlyDescending(OlderThan(hist, bound))
    ensures AllBelow(OlderThan(hist, bound), bound)
  {
    if hist != [] {
      var rest := OlderThan(hist[1..], bound);
      OlderThanDescending(hist[1..], bound);
      if hist[0].id < bound {
        forall i | 0 <= i < |rest|
          ensures rest[i].id < hist[0].id
        {
          OlderThanMember(hist[1..], bound, rest[i]);
          assert rest[i] in hist[1..];
        }
        ConsDescending(hist[0], rest);
      }
      var o := OlderThan(hist, bound);
      forall i | 0 <= i < |o|
        ensures o[i].id < bound
      {
        OlderThanMember(hist, bound, o[i]);
      }
    }
  }

  /** A fixed newest-first history answers as the client promises. */
  lemma FromHistoryValid(hist: seq<Message>)
    requires StrictlyDescending(hist)
    ensures ValidHistory(FromHistory(hist))
  {
    forall attempt: nat, chat: string, offset: nat
      ensures ValidReply(FromHistory(hist)(attempt, chat, offset), offset)
    {
      OlderThanDescending(hist, offset);
    }
  }

  lemma {:induction false} OlderThanTwice(hist: seq<Message>, outer: nat, inner: nat)
    requires inner <= outer
    ensures OlderThan(OlderThan(hist, outer), inner) == OlderThan(hist, inner)
  {
    if hist != [] {
      OlderThanTwice(hist[1..], outer, inner);
      var head: seq<Message> := if hist[0].id < outer then [hist[0]] else [];
      OlderThanConcat(head, OlderThan(hist[1..], outer), inner);
      assert OlderThan(head, inner) == if hist[0].id < inner then [hist[0]] else [];
    }
  }

  lemma {:induction false} OlderThanConcat(a: seq<Message>, b: seq<Message>, bound: nat)
    ensures OlderThan(a + b, bound) == OlderThan(a, bound) + OlderThan(b, bound)
  {
    if a == [] {
      assert a + b == b;
    } else {
      var head := if a[0].id < bound then [a[0]] else [];
      assert (a + b)[0] == a[0];
      assert (a + b)[1..] == a[1..] + b;
      assert OlderThan(a + b, bound) == head + OlderThan(a[1..] + b, bound);
      OlderThanConcat(a[1..], b, bound);
      assert head + (OlderThan(a[1..], bound) + OlderThan(b, bound)) == (head + OlderThan(a[1..], bound)) + OlderThan(b, bound);
    }
  }

  lemma {:induction false} OlderThanAll(ms: seq<Message>, bound: nat)
    requires AllBelow(ms, bound)
    ensures OlderThan(ms, bound) == ms
  {
    if ms != [] {
      OlderThanAll(ms[1..], bound);
    }
  }

  /** In a newest-first list, the messages older than the `k`-th one are exactly the
      ones after it. */
  lemma {:induction false} OlderThanSuffix(s: seq<Message>, k: nat)
    requires StrictlyDescending(s) && 0 < k <= |s|
    ensures OlderThan(s, s[k - 1].id) == s[k..]
  {
    assert s[0].id >= s[k - 1].id;
    if k == 1 {
      OlderThanAll(s[1..], s[0].id);
    } else {
      assert s[1..][k - 2] == s[k - 1];
      OlderThanSuffix(s[1..], k - 1);
      assert s[1..][k - 1..] == s[k..];
    }
  }

  lemma {:induction false} WindowConcat(a: seq<Message>, b: seq<Message>, lo: nat, hi: nat)
    ensures Window(a + b, lo, hi) == Window(a, lo, hi) + Window(b, lo, hi)
  {
    if a == [] {
      assert a + b == b;
    } else {
      var head := if InWindow(a[0], lo, hi) then [a[0]] else [];
      assert (a + b)[0] == a[0];
      assert (a + b)[1..] == a[1..] + b;
      assert Window(a + b, lo, hi) == head + Window(a[1..] + b, lo, hi);
      WindowConcat(a[1..], b, lo, hi);
      assert head + (Window(a[1..], lo, hi) + Window(b, lo, hi)) == (head + Window(a[1..], lo, hi)) + Window(b, lo, hi);
    }
  }

  lemma {:induction false} WindowMember(ms: seq<Message>, lo: nat, hi: nat, x: Message)
    ensures x in Window(ms, lo, hi) <==> x in ms && InWindow(x, lo, hi)
  {
    if ms != [] {
      WindowMember(ms[1..], lo, hi, x);
      assert ms == [ms[0]] + ms[1..];
    }
  }

  /** The last step of a walk over a fixed history: the page reaches the window's
      lower end, so nothing older than the page is in the window. */
  lemma LastPage(older: seq<Message>, page: seq<Message>, lo: nat, hi: nat)
    requires StrictlyDescending(older) && page == Take(older, PageLimit)
    requires ReachesLow(page, lo)
    ensures ScanPage(page, lo, hi) == Window(older, lo, hi)
  {
    var k := |page|;
    var i :| 0 <= i < k && page[i].id <= lo;
    assert older == page + older[k..];
    assert StrictlyDescending(page);
    ScanPageIsWindow(page, lo, hi);
    assert AllBelow(older[k..], lo) by {
      forall j | 0 <= j < |older[k..]|
        ensures older[k..][j].id < lo
      {
        assert older[k..][j] == older[k + j];
      }
    }
    WindowOfOlder(older[k..], lo, hi);
    WindowConcat(page, older[k..], lo, hi);
  }

  /** A page that does not reach the window's lower end: the window of what is older
      than the offset is what the page keeps followed by the window of what is older
      than the page's oldest message. */
  lemma WindowStep(hist: seq<Message>, lo: nat, hi: nat, offset: nat)
    requires StrictlyDescending(hist)
    requires var page := Take(OlderThan(hist, offset), PageLimit);
      page != [] && !ReachesLow(page, lo)
    ensures var page := Take(OlderThan(hist, offset), PageLimit);
      Window(OlderThan(hist, offset), lo, hi) ==
        ScanPage(page, lo, hi) + Window(OlderThan(hist, page[|page| - 1].id), lo, hi)
  {
    var older := OlderThan(hist, offset);
    OlderThanDescending(hist, offset);
    var page := Take(older, PageLimit);
    var k := |page|;
    var next := page[k - 1].id;
    assert older[k - 1] == page[k - 1];
    assert next < offset;
    OlderThanTwice(hist, offset, next);
    OlderThanSuffix(older, k);
    assert older == page + older[k..];
    assert StrictlyDescending(page);
    ScanPageIsWindow(page, lo, hi);
    WindowConcat(page, older[k..], lo, hi);
  }

  /** Over a fixed newest-first history, a walk from `offset` collects, newest first,
      exactly the window's messages that are older than `offset`. */
  lemma {:induction false} StableWalk(hist: seq<Message>, attempt: nat, chat: string, lo: nat, hi: nat, offset: nat)
    requires StrictlyDescending(hist)
    ensures ValidHistory(FromHistory(hist)) &&
      Paginate(FromHistory(hist), attempt, chat, lo, hi, offset).walk
        == Collected(Window(OlderThan(hist, offset), lo, hi))
    decreases offset
  {
    FromHistoryValid(hist);
    var h := FromHistory(hist);
    var older := OlderThan(hist, offset);
    OlderThanDescending(hist, offset);
    var page := Take(older, PageLimit);
    assert h(attempt, chat, offset) == Page(page);
    if page == [] {
      assert older == [];
    } else if ReachesLow(page, lo) {
      LastPage(older, page, lo, hi);
    } else {
      var next := page[|page| - 1].id;
      PaginateStep(h, attempt, chat, lo, hi, offset);
      StableWalk(hist, attempt, chat, lo, hi, next);
      WindowStep(hist, lo, hi, offset);
    }
  }

  lemma SortedWindowMember(hist: seq<Message>, lo: nat, hi: nat, first: nat, m: Message)
    ensures m in SortById(Window(OlderThan(hist, first), lo, hi)) <==> m in hist && lo <= m.id <= hi && m.id < first
  {
    var collected := Window(OlderThan(hist, first), lo, hi);
    SortByIdSorts(collected);
    assert m in SortById(collected) <==> m in multiset(SortById(collected));
    WindowMember(OlderThan(hist, first), lo, hi, m);
    OlderThanMember(hist, first, m);
  }

  /** Over a fixed history any attempt completes, with the window below `first` sorted
      by id. */
  lemma StableAttempt(hist: seq<Message>, r: Range, first: nat, attempt: nat, fuel: nat)
    requires StrictlyDescending(hist) && fuel >= 1
    ensures ValidHistory(FromHistory(hist))
    ensures Attempts(FromHistory(hist), r, first, attempt, fuel).result == Fetched(SortById(Window(OlderThan(hist, first), r.lo, r.hi)))
    ensures StrictlyAscending(SortById(Window(OlderThan(hist, first), r.lo, r.hi)))
  {
    FromHistoryValid(hist);
    var h := FromHistory(hist);
    StableWalk(hist, attempt, r.chat, r.lo, r.hi, first);
    WalkCollects(h, attempt, r.chat, r.lo, r.hi, first);
    var w := Paginate(h, attempt, r.chat, r.lo, r.hi, first);
    AttemptOnce(h, r, first, attempt, fuel, w.walk, w.events);
    SortDescendingIsReverse(Window(OlderThan(hist, first), r.lo, r.hi));
  }

  /** Over a fixed history the attempts return, ascending by id, exactly the history's
      messages with `lo <= id <= hi` that are older than `first`. */
  lemma StableAttempts(hist: seq<Message>, r: Range, first: nat, attempt: nat, fuel: nat)
    requires StrictlyDescending(hist) && fuel >= 1
    ensures ValidHistory(FromHistory(hist)) &&
      var out := Attempts(FromHistory(hist), r, first, attempt, fuel);
      out.result.Fetched? && StrictlyAscending(out.result.messages) &&
      forall m :: m in out.result.messages <==> m in hist && r.lo <= m.id <= r.hi && m.id < first
  {
    StableAttempt(hist, r, first, attempt, fuel);
    forall m
      ensures m in SortById(Window(OlderThan(hist, first), r.lo, r.hi)) <==> m in hist && r.lo <= m.id <= r.hi && m.id < first
    {
      SortedWindowMember(hist, r.lo, r.hi, first, m);
    }
  }

  /** Over a fixed history, a valid fetch as written returns, ascending by id, exactly
      the history's messages with `min_id <= id < max_id`. */
  lemma StableFetch(startLink: string, endLink: string, hist: seq<Message>, fuel: nat)
    requires StrictlyDescending(hist) && fuel >= 1
    requires CheckLinks(startLink, endLink).Valid?
    ensures ValidHistory(FromHistory(hist)) &&
      var out := FetchSpec(startLink, endLink, FromHistory(hist), fuel);
      var r := CheckLinks(startLink, endLink).range;
      out.result.Fetched? && StrictlyAscending(out.result.messages) &&
      forall m :: m in out.result.messages <==> m in hist && r.lo <= m.id < r.hi
  {
    var r := CheckLinks(startLink, endLink).range;
    StableAttempts(hist, r, r.hi, 0, fuel);
    assert FetchSpec(startLink, endLink, FromHistory(hist), fuel) == Attempts(FromHistory(hist), r, r.hi, 0, fuel);
  }

  /** Over a fixed history, the corrected fetch returns, ascending by id, exactly the
      history's messages with `min_id <= id <= max_id`. */
  lemma CorrectedStableFetch(startLink: string, endLink: string, hist: seq<Message>, fuel: nat)
    requires StrictlyDescending(hist) && fuel >= 1
    requires CheckLinks(startLink, endLink).Valid?
    ensures ValidHistory(FromHistory(hist)) &&
      var out := CorrectedFetchSpec(startLink, endLink, FromHistory(hist), fuel);
      var r := CheckLinks(startLink, endLink).range;
      out.result.Fetched? && StrictlyAscending(out.result.messages) &&
      forall m :: m in out.result.messages <==> m in hist && r.lo <= m.id <= r.hi
  {
    var r := CheckLinks(startLink, endLink).range;
    var first := r.hi + 1;
    StableAttempts(hist, r, first, 0, fuel);
    var out := Attempts(FromHistory(hist), r, first, 0, fuel);
    assert CorrectedFetchSpec(startLink, endLink, FromHistory(hist), fuel) == out;
    forall m
      ensures m in out.result.messages <==> m in hist && r.lo <= m.id <= r.hi
    {
      assert m in out.result.messages <==> m in hist && r.lo <= m.id <= r.hi && m.id < first;
    }
  }

  /** As written, the fetch never returns the message at `max_id`, which the filter
      admits: the first request asks only for messages older than `max_id`. The
      corrected fetch returns it. */
  lemma UpperEndMissed(startLink: string, endLink: string, hist: seq<Message>, fuel: nat, m: Message)
    requires StrictlyDescending(hist) && fuel >= 1
    requires CheckLinks(startLink, endLink).Valid? && m in hist && m.id == CheckLinks(startLink, endLink).range.hi
    ensures ValidHistory(FromHistory(hist))
    ensures var out := FetchSpec(startLink, endLink, FromHistory(hist), fuel);
      out.result.Fetched? && m !in out.result.messages
    ensures var out := CorrectedFetchSpec(startLink, endLink, FromHistory(hist), fuel);
      out.result.Fetched? && m in out.result.messages
  {
    StableFetch(startLink, endLink, hist, fuel);
    CorrectedStableFetch(startLink, endLink, hist, fuel);
  }

  /** A fixed history whose client answers the request at offset `at` with a FloodWait
      of `x` seconds during the first attempt, and as usual from then on. */
  function FloodOnce(hist: seq<Message>, at: nat, x: nat): History {
    (attempt: nat, chat: string, offset: nat) =>
      if attempt == 0 && offset == at then Throttled(x) else Page(Take(OlderThan(hist, offset), PageLimit))
  }

  lemma FloodOnceValid(hist: seq<Message>, at: nat, x: nat)
    requires StrictlyDescending(hist)
    ensures ValidHistory(FloodOnce(hist, at, x))
  {
    FromHistoryValid(hist);
    forall attempt: nat, chat: string, offset: nat
      ensures ValidReply(FloodOnce(hist, at, x)(attempt, chat, offset), offset)
    {
      if attempt == 0 && offset == at {
        assert FloodOnce(hist, at, x)(attempt, chat, offset) == Throttled(x);
      } else {
        ReplyValid(FromHistory(hist), attempt, chat, offset);
        assert FloodOnce(hist, at, x)(attempt, chat, offset) == FromHistory(hist)(attempt, chat, offset);
      }
    }
  }

  /** During the first attempt, the walk over `FloodOnce` either stops at the FloodWait
      or, never asking at offset `at`, collects what the unthrottled walk collects. */
  lemma {:induction false} FloodedWalk(hist: seq<Message>, at: nat, x: nat, chat: string, lo: nat, hi: nat, offset: nat)
    requires StrictlyDescending(hist)
    ensures ValidHistory(FloodOnce(hist, at, x)) && ValidHistory(FromHistory(hist))
    ensures var w := Paginate(FloodOnce(hist, at, x), 0, chat, lo, hi, offset).walk;
      w == WalkThrottled(x) || w == Paginate(FromHistory(hist), 0, chat, lo, hi, offset).walk
    decreases offset
  {
    FloodOnceValid(hist, at, x);
    FromHistoryValid(hist);
    var flooded := FloodOnce(hist, at, x);
    var h := FromHistory(hist);
    if offset == at {
      assert flooded(0, chat, offset) == Throttled(x);
    } else {
      var reply := h(0, chat, offset);
      assert flooded(0, chat, offset) == reply;
      if reply.messages != [] && !ReachesLow(reply.messages, lo) {
        var next := reply.messages[|reply.messages| - 1].id;
        PaginateStep(flooded, 0, chat, lo, hi, offset);
        PaginateStep(h, 0, chat, lo, hi, offset);
        FloodedWalk(hist, at, x, chat, lo, hi, next);
      }
    }
  }

  /** A FloodWait in the first attempt, wherever the walk meets it, changes nothing in
      what the fetch returns: the attempt restarts from the same offset and, over the
      same history, collects the same messages. */
  lemma RestartAfterFlood(hist: seq<Message>, r: Range, first: nat, at: nat, x: nat, fuel: nat)
    requires StrictlyDescending(hist) && fuel >= 2
    ensures ValidHistory(FloodOnce(hist, at, x)) && ValidHistory(FromHistory(hist))
    ensures Attempts(FloodOnce(hist, at, x), r, first, 0, fuel).result ==
      Attempts(FromHistory(hist), r, first, 0, fuel).result
  {
    var flooded := FloodOnce(hist, at, x);
    var h := FromHistory(hist);
    FloodedWalk(hist, at, x, r.chat, r.lo, r.hi, first);
    StableAttempt(hist, r, first, 0, fuel);
    StableWalk(hist, 0, r.chat, r.lo, r.hi, first);
    var w := Paginate(flooded, 0, r.chat, r.lo, r.hi, first);
    AttemptOnce(flooded, r, first, 0, fuel, w.walk, w.events);
    if w.walk.WalkThrottled? {
      var again := Paginate(flooded, 1, r.chat, r.lo, r.hi, first);
      PaginateAgree(flooded, h, 1, r.chat, r.lo, r.hi, first);
      StableWalk(hist, 1, r.chat, r.lo, r.hi, first);
      AttemptOnce(flooded, r, first, 1, fuel - 1, again.walk, again.events);
    }
  }

  /** The fetch as written, throttled once in its first attempt, returns what the
      unthrottled fetch returns. */
  lemma RestartedFetch(startLink: string, endLink: string, hist: seq<Message>, at: nat, x: nat, fuel: nat)
    requires StrictlyDescending(hist) && fuel >= 2
    ensures ValidHistory(FloodOnce(hist, at, x)) && ValidHistory(FromHistory(hist))
    ensures FetchSpec(startLink, endLink, FloodOnce(hist, at, x), fuel).result ==
      FetchSpec(startLink, endLink, FromHistory(hist), fuel).result
  {
    FloodOnceValid(hist, at, x);
    FromHistoryValid(hist);
    var c := CheckLinks(startLink, endLink);
    if c.Valid? {
      RestartAfterFlood(hist, c.range, c.range.hi, at, x, fuel);
    }
  }
}
