/** Ordering of messages by id, and the stable sort that `all_messages.sort(key=lambda x: x.id)`
    performs at the end of a range fetch. */
module MessageOrder {
  import opened Common

  predicate Ascending(ms: seq<Message>) {
    forall i, j :: 0 <= i < j < |ms| ==> ms[i].id <= ms[j].id
  }

  predicate StrictlyAscending(ms: seq<Message>) {
    forall i, j :: 0 <= i < j < |ms| ==> ms[i].id < ms[j].id
  }

  /** Newest first, as a chat history page is returned. */
  predicate StrictlyDescending(ms: seq<Message>) {
    forall i, j :: 0 <= i < j < |ms| ==> ms[i].id > ms[j].id
  }

  function Reverse(ms: seq<Message>): seq<Message> {
    if ms == [] then [] else [ms[|ms| - 1]] + Reverse(ms[..|ms| - 1])
  }

  /** Insert `m` after every element whose id is not larger, so equal ids keep their order. */
  function Insert(m: Message, sorted: seq<Message>): seq<Message> {
    if sorted == [] then [m]
    else if m.id < sorted[0].id then [m] + sorted
    else [sorted[0]] + Insert(m, sorted[1..])
  }

  /** Inserting into an ascending list keeps it ascending and adds exactly `m`. */
  lemma {:induction false} InsertSorts(m: Message, sorted: seq<Message>)
    requires Ascending(sorted)
    ensures Ascending(Insert(m, sorted))
    ensures multiset(Insert(m, sorted)) == multiset(sorted) + multiset{m}
    ensures |Insert(m, sorted)| == |sorted| + 1
  {
    if sorted == [] {
    } else if m.id < sorted[0].id {
      ConsAscending(m, sorted);
    } else {
      var rest := Insert(m, sorted[1..]);
      InsertSorts(m, sorted[1..]);
      assert sorted == [sorted[0]] + sorted[1..];
      forall i | 0 <= i < |rest|
        ensures sorted[0].id <= rest[i].id
      {
        assert rest[i] in multiset(rest);
        if rest[i] != m {
          assert rest[i] in multiset(sorted[1..]);
          var k :| 0 <= k < |sorted[1..]| && sorted[1..][k] == rest[i];
          assert sorted[k + 1] == rest[i];
        }
      }
      ConsAscending(sorted[0], rest);
    }
  }

  lemma ConsAscending(x: Message, rest: seq<Message>)
    requires Ascending(rest)
    requires forall i :: 0 <= i < |rest| ==> x.id <= rest[i].id
    ensures Ascending([x] + rest)
  {
    forall i, j | 0 <= i < j < |rest| + 1
      ensures ([x] + rest)[i].id <= ([x] + rest)[j].id
    {
      if i > 0 {
        assert ([x] + rest)[i] == rest[i - 1];
      }
      assert ([x] + rest)[j] == rest[j - 1];
    }
  }

  /** `list.sort(key=lambda x: x.id)`: insertion of each element in turn. */
  function SortById(ms: seq<Message>): seq<Message>
    decreases |ms|
  {
    if ms == [] then []
    else Insert(ms[|ms| - 1], SortById(ms[..|ms| - 1]))
  }

  /** The sort yields an ascending permutation of its input. */
  lemma {:induction false} SortByIdSorts(ms: seq<Message>)
    ensures Ascending(SortById(ms))
    ensures multiset(SortById(ms)) == multiset(ms)
    ensures |SortById(ms)| == |ms|
    decreases |ms|
  {
    if ms != [] {
      var init := ms[..|ms| - 1];
      SortByIdSorts(init);
      InsertSorts(ms[|ms| - 1], SortById(init));
      assert ms == init + [ms[|ms| - 1]];
    }
  }

  lemma {:induction false} ReverseFacts(ms: seq<Message>)
    ensures |Reverse(ms)| == |ms|
    ensures forall i :: 0 <= i < |ms| ==> Reverse(ms)[i] == ms[|ms| - 1 - i]
    decreases |ms|
  {
    if ms != [] {
      ReverseFacts(ms[..|ms| - 1]);
    }
  }

  lemma ConsDescending(x: Message, rest: seq<Message>)
    requires StrictlyDescending(rest)
    requires forall i :: 0 <= i < |rest| ==> rest[i].id < x.id
    ensures StrictlyDescending([x] + rest)
  {
    forall i, j | 0 <= i < j < |rest| + 1
      ensures ([x] + rest)[i].id > ([x] + rest)[j].id
    {
      if i > 0 {
        assert ([x] + rest)[i] == rest[i - 1];
      }
      assert ([x] + rest)[j] == rest[j - 1];
    }
  }

  lemma ConcatDescending(a: seq<Message>, b: seq<Message>)
    requires StrictlyDescending(a) && StrictlyDescending(b)
    requires forall i, j :: 0 <= i < |a| && 0 <= j < |b| ==> a[i].id > b[j].id
    ensures StrictlyDescending(a + b)
  {
    forall i, j | 0 <= i < j < |a| + |b|
      ensures (a + b)[i].id > (a + b)[j].id
    {
      if j < |a| {
      } else if i < |a| {
        assert (a + b)[j] == b[j - |a|];
      } else {
        assert (a + b)[i] == b[i - |a|];
        assert (a + b)[j] == b[j - |a|];
      }
    }
  }

  /** A list that is already newest-first sorts into its reverse; in particular the
      result is strictly ascending and holds the same messages. */
  lemma {:induction false} SortDescendingIsReverse(ms: seq<Message>)
    requires StrictlyDescending(ms)
    ensures SortById(ms) == Reverse(ms)
    ensures StrictlyAscending(SortById(ms))
    decreases |ms|
  {
    ReverseFacts(ms);
    if ms != [] {
      var init := ms[..|ms| - 1];
      var last := ms[|ms| - 1];
      assert StrictlyDescending(init);
      SortDescendingIsReverse(init);
      var sorted := SortById(init);
      ReverseFacts(init);
      if sorted != [] {
        assert sorted[0] == init[|init| - 1];
        assert last.id < sorted[0].id;
      }
      assert Insert(last, sorted) == [last] + sorted;
    }
  }
}
