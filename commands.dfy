/** Command handling of the content fetcher: the whitespace split of a command,
    the dispatch on its prefix, the single-message guard, and the composition of
    the range fetch with the batch sender that a `/batch` command runs. */
module Commands {
  import opened Common
  import opened Links
  import opened RangeFetch
  import opened BatchSend

  // ---------------------------------------------------------------------------
  // Whitespace split

  /** The characters Python's `str.isspace` accepts, which `str.split()` separates on. */
  predicate IsSpace(c: char) {
    var n := c as int;
    (9 <= n <= 13) || (28 <= n <= 32) || n == 0x85 || n == 0xA0 || n == 0x1680 ||
    (0x2000 <= n <= 0x200A) || n == 0x2028 || n == 0x2029 || n == 0x202F ||
    n == 0x205F || n == 0x3000
  }

  /** A piece `split()` can return: non-empty and free of whitespace. */
  predicate IsWord(w: string) {
    w != [] && forall i :: 0 <= i < |w| ==> !IsSpace(w[i])
  }

  /** The length of the run of non-space characters at the start of `s`. */
  function WordLength(s: string): nat {
    if s == [] || IsSpace(s[0]) then 0 else 1 + WordLength(s[1..])
  }

  /** `s.split()`: the maximal runs of non-space characters, in order. */
  function Split(s: string): seq<string>
    decreases |s|
  {
    if s == [] then []
    else if IsSpace(s[0]) then Split(s[1..])
    else
      WordBounds(s);
      var n := WordLength(s);
      [s[..n]] + Split(s[n..])
  }

  lemma {:induction false} WordBounds(s: string)
    ensures WordLength(s) <= |s|
    ensures s != [] && !IsSpace(s[0]) ==> WordLength(s) >= 1
    ensures forall i :: 0 <= i < WordLength(s) ==> !IsSpace(s[i])
    ensures WordLength(s) < |s| ==> IsSpace(s[WordLength(s)])
  {
    if s != [] && !IsSpace(s[0]) {
      WordBounds(s[1..]);
      forall i | 0 <= i < WordLength(s)
        ensures !IsSpace(s[i])
      {
        if i > 0 {
          assert s[i] == s[1..][i - 1];
        }
      }
    }
  }

  /** Every piece of a split is non-empty and contains no whitespace. */
  lemma {:induction false} SplitWords(s: string)
    ensures forall k :: 0 <= k < |Split(s)| ==> IsWord(Split(s)[k])
    decreases |s|
  {
    if s != [] {
      if IsSpace(s[0]) {
        SplitWords(s[1..]);
      } else {
        WordBounds(s);
        var n := WordLength(s);
        SplitWords(s[n..]);
        var parts := Split(s);
        forall k | 0 <= k < |parts|
          ensures IsWord(parts[k])
        {
          if k == 0 {
            forall i | 0 <= i < n
              ensures !IsSpace(s[..n][i])
            {
              assert s[..n][i] == s[i];
            }
          } else {
            assert parts[k] == Split(s[n..])[k - 1];
          }
        }
      }
    }
  }

  /** The words joined by single spaces. */
  function JoinWords(ws: seq<string>): string {
    if ws == [] then ""
    else if |ws| == 1 then ws[0]
    else ws[0] + (" " + JoinWords(ws[1..]))
  }

  lemma {:induction false} WordLengthOfWord(w: string, rest: string)
    requires IsWord(w) && (rest == [] || IsSpace(rest[0]))
    ensures WordLength(w + rest) == |w|
    decreases |w|
  {
    assert (w + rest)[0] == w[0];
    if |w| > 1 {
      assert (w + rest)[1..] == w[1..] + rest;
      assert IsWord(w[1..]) by {
        forall i | 0 <= i < |w[1..]|
          ensures !IsSpace(w[1..][i])
        {
          assert w[1..][i] == w[i + 1];
        }
      }
      WordLengthOfWord(w[1..], rest);
    } else {
      assert (w + rest)[1..] == rest;
    }
  }

  /** A word followed by nothing or by whitespace splits off as one piece. */
  lemma SplitWord(w: string, rest: string)
    requires IsWord(w) && (rest == [] || IsSpace(rest[0]))
    ensures Split(w + rest) == [w] + Split(rest)
  {
    WordLengthOfWord(w, rest);
    assert (w + rest)[0] == w[0];
    assert (w + rest)[..|w|] == w;
    assert (w + rest)[|w|..] == rest;
  }

  /** Splitting words joined by spaces gives the words back. */
  lemma {:induction false} SplitJoin(ws: seq<string>)
    requires forall k :: 0 <= k < |ws| ==> IsWord(ws[k])
    ensures Split(JoinWords(ws)) == ws
  {
    if |ws| == 1 {
      SplitWord(ws[0], "");
      assert ws[0] + "" == ws[0];
    } else if |ws| > 1 {
      var tail := JoinWords(ws[1..]);
      SplitJoin(ws[1..]);
      SplitWord(ws[0], " " + tail);
      assert (" " + tail)[1..] == tail;
    }
  }

  // ---------------------------------------------------------------------------
  // Dispatch

  predicate StartsWith(s: string, prefix: string) {
    |prefix| <= |s| && s[..|prefix|] == prefix
  }

  /** What the text of a command asks for, after the prefix tests and the
      argument-count checks. */
  datatype Command =
    | Batch(startLink: string, endLink: string)
    | BatchMisuse
    | Single(link: string)
    | SingleMisuse
    | Help
    | Unknown

  function ParseCommand(text: string): Command {
    if StartsWith(text, "/batch") then
      var parts := Split(text);
      if |parts| != 3 then BatchMisuse else Batch(parts[1], parts[2])
    else if StartsWith(text, "/single") then
      var parts := Split(text);
      if |parts| != 2 then SingleMisuse else Single(parts[1])
    else if StartsWith(text, "/help") then Help
    else Unknown
  }

  /** The prefixes are tested in the order `/batch`, `/single`, `/help`; a recognised
      command with the wrong number of arguments is a misuse, and the arguments of
      a well-formed command are the second and third pieces of the split. */
  lemma DispatchOrder(text: string)
    ensures var c := ParseCommand(text);
      var parts := Split(text);
      ((c.Batch? || c.BatchMisuse?) <==> StartsWith(text, "/batch")) &&
      ((c.Single? || c.SingleMisuse?) <==> !StartsWith(text, "/batch") && StartsWith(text, "/single")) &&
      (c.Help? <==> !StartsWith(text, "/batch") && !StartsWith(text, "/single") && StartsWith(text, "/help")) &&
      (c.Unknown? <==> !StartsWith(text, "/batch") && !StartsWith(text, "/single") && !StartsWith(text, "/help")) &&
      (c.BatchMisuse? ==> |parts| != 3) &&
      (c.SingleMisuse? ==> |parts| != 2) &&
      (c.Batch? ==> |parts| == 3 && c.startLink == parts[1] && c.endLink == parts[2]) &&
      (c.Single? ==> |parts| == 2 && c.link == parts[1])
  {
  }

  /** The arguments of a command come out as parsed, with no whitespace in them. */
  lemma ArgumentsAreWords(text: string)
    ensures var c := ParseCommand(text);
      (c.Batch? ==> IsWord(c.startLink) && IsWord(c.endLink)) &&
      (c.Single? ==> IsWord(c.link))
  {
    SplitWords(text);
  }

  /** `/batch <start> <end>` written with single spaces is understood as a batch of
      exactly those two links. */
  lemma BatchRoundTrip(startLink: string, endLink: string)
    requires IsWord(startLink) && IsWord(endLink)
    ensures ParseCommand(JoinWords(["/batch", startLink, endLink])) == Batch(startLink, endLink)
  {
    var ws := ["/batch", startLink, endLink];
    assert IsWord("/batch");
    SplitJoin(ws);
    var text := JoinWords(ws);
    assert JoinWords(ws[1..]) == startLink + (" " + endLink) by {
      assert ws[1..][1..] == [endLink];
    }
    assert text == "/batch" + (" " + JoinWords(ws[1..]));
    assert text[..6] == "/batch";
  }

  /** `/single <link>` written with a single space is understood as that link. */
  lemma SingleRoundTrip(link: string)
    requires IsWord(link)
    ensures ParseCommand(JoinWords(["/single", link])) == Single(link)
  {
    var ws := ["/single", link];
    assert IsWord("/single");
    SplitJoin(ws);
    var text := JoinWords(ws);
    assert text == "/single" + (" " + link);
    assert text[..7] == "/single";
    assert text[..6] != "/batch" by {
      assert text[1] == 's';
    }
  }

  // ---------------------------------------------------------------------------
  // A single message

  /** The request `fetch_single_message` makes, or none when the link does not parse
      or names message 0 (`not message_id`). */
  function SingleRequest(link: string): Option<Link> {
    match ParseLink(link)
    case None => None
    case Some(l) => if l.chat == "" || l.messageId == 0 then None else Some(l)
  }

  /** A request is made exactly when the link parses to a message id above 0; the
      chat test never fails because a parsed identifier is never empty. */
  lemma SingleRequestCases(link: string)
    ensures SingleRequest(link).Some? <==> ParseLink(link).Some? && ParseLink(link).value.messageId > 0
    ensures SingleRequest(link).Some? ==> SingleRequest(link) == ParseLink(link)
  {
    if ParseLink(link).Some? {
      ParsedChatShape(link);
    }
  }

  /** `fetch_single_message`: `lookup` is `get_messages`, answering `None` both when
      nothing comes back and when it raises. */
  function FetchSingleMessage(link: string, lookup: (string, nat) -> Option<Message>): Option<Message> {
    match SingleRequest(link)
    case None => None
    case Some(l) => lookup(l.chat, l.messageId)
  }

  // ---------------------------------------------------------------------------
  // Running a command

  /** The exception text that `"❌ Error: …"` reports. */
  datatype ErrorReason = LinksInvalid | ChatsDiffer | ClientFailure

  /** The string `process_command` returns, one constructor per distinct reply. */
  datatype Response =
    | BatchUsage
    | SingleUsage
    | NoMessages
    | BatchCompleted
    | BatchFailed
    | MessageSent
    | UnableToFetch
    | HelpText
    | UnknownCommand
    | Error(reason: ErrorReason)
    | GaveUp

  /** What a command does with the client, in order. */
  datatype CommandEvent =
    | Announced(startLink: string, endLink: string, reply: Reply)
    | Fetching(fetch: FetchOutcome)
    | Sending(batch: BatchOutcome)
    | Lookup(chat: string, messageId: nat)
    | CopiedSingle(reply: Reply)

  datatype CommandOutcome = CommandOutcome(response: Response, events: seq<CommandEvent>)

  /** `batch_size=10, delay=3`, fixed by the command handler. */
  const CommandBatchSize: nat := 10
  const CommandBatchDelay: nat := 3

  function Reason(e: FetchError): ErrorReason {
    match e
    case InvalidLinks => LinksInvalid
    case DifferentChats => ChatsDiffer
  }

  /** The sender's replies after the first call of a command. */
  function Later(replies: Replies): Replies {
    (c: nat) => replies(c + 1)
  }

  /** `/batch <start> <end>` once the arguments are checked: announce, fetch, send. */
  function RunBatch(startLink: string, endLink: string, replies: Replies, h: History, fuel: nat): CommandOutcome
    requires ValidHistory(h)
  {
    var announced := Announced(startLink, endLink, replies(0));
    if replies(0) != Ok then CommandOutcome(Error(ClientFailure), [announced])
    else
      var f := FetchSpec(startLink, endLink, h, fuel);
      var fetched := [announced, Fetching(f)];
      match f.result
      case Rejected(e) => CommandOutcome(Error(Reason(e)), fetched)
      case OutOfAttempts => CommandOutcome(GaveUp, fetched)
      case Fetched(ms) =>
        if ms == [] then CommandOutcome(NoMessages, fetched)
        else
          var s := SendBatch(Later(replies), ms, CommandBatchSize, CommandBatchDelay);
          CommandOutcome(BatchResponse(s.result), fetched + [Sending(s)])
  }

  /** The reply once the sender has returned, or raised into the command's `except`. */
  function BatchResponse(r: BatchSend.Result): Response {
    match r
    case Returned(ok) => if ok then BatchCompleted else BatchFailed
    case Raised => Error(ClientFailure)
  }

  /** `/single <link>` once the argument is checked: fetch, then copy. */
  function RunSingle(link: string, replies: Replies, lookup: (string, nat) -> Option<Message>): CommandOutcome {
    match SingleRequest(link)
    case None => CommandOutcome(UnableToFetch, [])
    case Some(l) =>
      var looked := Lookup(l.chat, l.messageId);
      match FetchSingleMessage(link, lookup)
      case None => CommandOutcome(UnableToFetch, [looked])
      case Some(_) =>
        var copied := CopiedSingle(replies(0));
        CommandOutcome(if replies(0) == Ok then MessageSent else Error(ClientFailure), [looked, copied])
  }

  /** `/single <link>` replies "Message sent" exactly when the message is found and its
      copy goes through, the error reply exactly when it is found and the copy raises,
      and "Unable to fetch message" exactly when it is not found. A link without a
      positive message id makes no client call; otherwise the lookup comes first, with
      the parsed chat and id, and the copy follows only a message that was found. */
  lemma SingleReplies(link: string, replies: Replies, lookup: (string, nat) -> Option<Message>)
    ensures var out := RunSingle(link, replies, lookup);
      var found := FetchSingleMessage(link, lookup);
      (out.response == MessageSent <==> found.Some? && replies(0) == Ok) &&
      (out.response == Error(ClientFailure) <==> found.Some? && replies(0) != Ok) &&
      (out.response == UnableToFetch <==> found.None?)
    ensures var out := RunSingle(link, replies, lookup);
      var request := SingleRequest(link);
      (request.None? ==> out.events == [] && FetchSingleMessage(link, lookup).None?) &&
      (request.Some? ==>
        |out.events| == (if FetchSingleMessage(link, lookup).Some? then 2 else 1) &&
        out.events[0] == Lookup(request.value.chat, request.value.messageId) &&
        (|out.events| == 2 ==> out.events[1] == CopiedSingle(replies(0))))
  {
  }

  /** `process_command`: `replies` answers the sends and copies in the order they are
      made, `h` the history requests, `lookup` the single-message request. */
  function Run(text: string, replies: Replies, h: History, fuel: nat, lookup: (string, nat) -> Option<Message>): CommandOutcome
    requires ValidHistory(h)
  {
    match ParseCommand(text)
    case Batch(a, b) => RunBatch(a, b, replies, h, fuel)
    case BatchMisuse => CommandOutcome(BatchUsage, [])
    case Single(link) => RunSingle(link, replies, lookup)
    case SingleMisuse => CommandOutcome(SingleUsage, [])
    case Help => CommandOutcome(HelpText, [])
    case Unknown => CommandOutcome(UnknownCommand, [])
  }

  /** A well-formed `/batch`: announce the request, fetch the range, send it. */
  method BatchCommand(a: string, b: string, replies: Replies, h: History, fuel: nat)
    returns (response: Response, events: seq<CommandEvent>)
    requires ValidHistory(h)
    ensures CommandOutcome(response, events) == RunBatch(a, b, replies, h, fuel)
  {
    events := [Announced(a, b, replies(0))];
    if replies(0) != Ok {
      response := Error(ClientFailure);
      return;
    }
    var result, fetchEvents := FetchMessagesRange(a, b, h, fuel);
    events := events + [Fetching(FetchOutcome(result, fetchEvents))];
    match result {
      case Rejected(e) =>
        response := Error(Reason(e));
      case OutOfAttempts =>
        response := GaveUp;
      case Fetched(ms) =>
        if ms == [] {
          response := NoMessages;
        } else {
          var sent, last := SendMessageBatch(Later(replies), ms, CommandBatchSize, CommandBatchDelay);
          events := events + [Sending(BatchOutcome(sent, last))];
          if sent == Returned(true) {
            response := BatchCompleted;
          } else if sent == Returned(false) {
            response := BatchFailed;
          } else {
            response := Error(ClientFailure);
          }
          assert response == BatchResponse(sent);
        }
    }
  }

  method ProcessCommand(text: string, replies: Replies, h: History, fuel: nat, lookup: (string, nat) -> Option<Message>)
    returns (response: Response, events: seq<CommandEvent>)
    requires ValidHistory(h)
    ensures CommandOutcome(response, events) == Run(text, replies, h, fuel, lookup)
  {
    var command := ParseCommand(text);
    match command
    case Batch(a, b) =>
      response, events := BatchCommand(a, b, replies, h, fuel);
    case BatchMisuse =>
      response, events := BatchUsage, [];
    case Single(link) =>
      var request := SingleRequest(link);
      if request.None? {
        response, events := UnableToFetch, [];
      } else {
        var l := request.value;
        events := [Lookup(l.chat, l.messageId)];
        var message := FetchSingleMessage(link, lookup);
        if message.None? {
          response := UnableToFetch;
        } else {
          events := events + [CopiedSingle(replies(0))];
          response := if replies(0) == Ok then MessageSent else Error(ClientFailure);
        }
      }
    case SingleMisuse =>
      response, events := SingleUsage, [];
    case Help =>
      response, events := HelpText, [];
    case Unknown =>
      response, events := UnknownCommand, [];
  }

  // ---------------------------------------------------------------------------
  // Properties of a command run

  /** A command with the wrong number of arguments answers with its usage string;
      that, the help text and the unknown-command reply involve no client call. */
  lemma ArgumentErrors(text: string, replies: Replies, h: History, fuel: nat, lookup: (string, nat) -> Option<Message>)
    requires ValidHistory(h)
    ensures var out := Run(text, replies, h, fuel, lookup);
      (out.response == BatchUsage <==> StartsWith(text, "/batch") && |Split(text)| != 3) &&
      (out.response == SingleUsage <==>
        !StartsWith(text, "/batch") && StartsWith(text, "/single") && |Split(text)| != 2) &&
      (out.response in {BatchUsage, SingleUsage, HelpText, UnknownCommand} ==> out.events == [])
  {
    var out := Run(text, replies, h, fuel, lookup);
    match ParseCommand(text)
    case Batch(a, b) =>
      BatchResponses(a, b, replies, h, fuel);
    case Single(link) =>
      assert out.response in {UnableToFetch, MessageSent, Error(ClientFailure)};
    case _ =>
  }

  /** The replies a well-formed `/batch` can give; when the announcement itself fails,
      the exception is the reply and nothing else is attempted. */
  lemma BatchResponses(startLink: string, endLink: string, replies: Replies, h: History, fuel: nat)
    requires ValidHistory(h)
    ensures RunBatch(startLink, endLink, replies, h, fuel).response in
      {Error(ClientFailure), Error(LinksInvalid), Error(ChatsDiffer), GaveUp, NoMessages, BatchCompleted, BatchFailed}
    ensures replies(0) != Ok ==>
      RunBatch(startLink, endLink, replies, h, fuel) == CommandOutcome(Error(ClientFailure), [Announced(startLink, endLink, replies(0))])
  {
  }

  /** A fetch that finds nothing answers "No messages found" and sends nothing. */
  lemma EmptyFetchSendsNothing(startLink: string, endLink: string, replies: Replies, h: History, fuel: nat)
    requires ValidHistory(h) && replies(0) == Ok
    requires FetchSpec(startLink, endLink, h, fuel).result == Fetched([])
    ensures var out := RunBatch(startLink, endLink, replies, h, fuel);
      out.response == NoMessages && |out.events| == 2 && !out.events[1].Sending?
  {
  }

  /** As written, `/batch` with the same valid link twice never sends anything: the
      fetch finds nothing, so the reply is "No messages found" unless the model's
      bound on restarts runs out. */
  lemma SameLinkReply(link: string, replies: Replies, h: History, fuel: nat)
    requires ValidHistory(h) && replies(0) == Ok && CheckLinks(link, link).Valid?
    ensures RunBatch(link, link, replies, h, fuel).response in {NoMessages, GaveUp}
  {
    SameLinkFindsNothing(link, h, fuel);
    FetchResultShape(link, link, h, fuel);
  }

  /** Links that do not parse, or that name different chats, reach the user as
      `"❌ Error: …"` with the `ValueError`'s reason, after the announcement and
      before any history request. */
  lemma RejectedLinksReported(startLink: string, endLink: string, replies: Replies, h: History, fuel: nat)
    requires ValidHistory(h) && replies(0) == Ok
    requires CheckLinks(startLink, endLink).Invalid?
    ensures var out := RunBatch(startLink, endLink, replies, h, fuel);
      out.response == Error(Reason(CheckLinks(startLink, endLink).error)) &&
      out.events == [Announced(startLink, endLink, Ok), Fetching(FetchOutcome(Rejected(CheckLinks(startLink, endLink).error), []))]
  {
    FetchResultShape(startLink, endLink, h, fuel);
  }

  /** Once messages are fetched, the reply follows the sender: completed exactly
      when it returned true, after a summary of `sent_count` out of the fetched
      messages with `sent_count` at most their number; otherwise its last call was
      the error notice. */
  lemma BatchReply(startLink: string, endLink: string, replies: Replies, h: History, fuel: nat)
    requires ValidHistory(h) && replies(0) == Ok
    requires FetchSpec(startLink, endLink, h, fuel).result.Fetched?
    requires FetchSpec(startLink, endLink, h, fuel).result.messages != []
    ensures var ms := FetchSpec(startLink, endLink, h, fuel).result.messages;
      var out := RunBatch(startLink, endLink, replies, h, fuel);
      |out.events| == 3 && out.events[2].Sending? &&
      var s := out.events[2].batch;
      var n := |s.last.events|;
      s == SendBatch(Later(replies), ms, CommandBatchSize, CommandBatchDelay) &&
      (out.response == BatchCompleted <==> s.result == Returned(true)) &&
      (out.response == BatchFailed <==> s.result == Returned(false)) &&
      (out.response == Error(ClientFailure) <==> s.result == Raised) &&
      s.last.sent <= |ms| && n > 0 &&
      (out.response == BatchCompleted ==> s.last.events[n - 1] == Called(Summary(s.last.sent, |ms|), Ok)) &&
      (out.response != BatchCompleted ==> s.last.events[n - 1].action == ErrorNotice(s.last.sent))
  {
    var ms := FetchSpec(startLink, endLink, h, fuel).result.messages;
    SentIsDelivered(Later(replies), ms, CommandBatchSize, CommandBatchDelay);
  }
}
