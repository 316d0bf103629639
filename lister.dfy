/** The paginated listing of a workspace's custom emoji (slackClient.listEmoji).
    The network is replaced by a finite script of already-received responses,
    one per request the loop issues; JSON decoding is replaced by a body that
    is unreadable, malformed, or an already-decoded page. */
module Lister {
  import opened Wrappers

  /** Emoji name to image URL or "alias:<name>". */
  type EmojiMap = map<string, string>

  /** The page size the listing requests. */
  const PageLimit := 20

  /** HTTP status 429, the only status the loop treats specially. */
  const StatusTooManyRequests := 429

  /** The client only carries its credential. */
  datatype SlackClient = SlackClient(token: string)

  /** An emojiResponse after decoding: the success flag, the error text, the
      partial catalog and response_metadata.next_cursor. */
  datatype EmojiPage = EmojiPage(ok: bool, error: string, emoji: EmojiMap, nextCursor: string)

  /** A response body: reading it failed, it is not valid JSON, or it decoded. */
  datatype Body = Unreadable | Malformed | Decoded(page: EmojiPage)

  /** What one request yields: a transport error, or a reply with its status,
      its Retry-After header as parsed by strconv.ParseInt (None when the
      header is missing or not a base-10 int64), and its body. */
  datatype Response =
    | TransportFailure(reason: string)
    | Reply(status: int, retryAfter: Option<int>, body: Body)

  /** The parameters of one listing request. */
  datatype Request = Request(token: string, limit: int, cursor: string)

  datatype ListError =
    | Transport(reason: string)
    | BadRetryAfter
    | ReadFailed
    | DecodeFailed
    | Api(message: string)

  /** The result of listEmoji: the whole catalog, an error (and no catalog),
      or, an artefact of driving the loop from a finite script, the script
      ended while the loop still wanted to request `cursor`. */
  datatype Outcome =
    | Listed(emoji: EmojiMap)
    | Failed(error: ListError)
    | ScriptExhausted(cursor: string)

  /** An outcome together with every request issued, in order. */
  datatype Trace = Trace(outcome: Outcome, requests: seq<Request>)

  function Prepend(sent: seq<Request>, t: Trace): Trace {
    Trace(t.outcome, sent + t.requests)
  }

  lemma PrependTwice(a: seq<Request>, b: seq<Request>, t: Trace)
    ensures Prepend(a, Prepend(b, t)) == Prepend(a + b, t)
  {
    assert a + (b + t.requests) == (a + b) + t.requests;
  }

  // ---------------------------------------------------------------------------
  // Reference definition of the loop
  // ---------------------------------------------------------------------------

  /** The listing loop from state (`cursor`, `acc`) on the remaining script,
      following the branches of listEmoji one response at a time. */
  function Run(token: string, rest: seq<Response>, cursor: string, acc: EmojiMap): Trace
    decreases |rest|
  {
    if rest == [] then Trace(ScriptExhausted(cursor), [])
    else
      var request := Request(token, PageLimit, cursor);
      match rest[0]
      case TransportFailure(reason) => Trace(Failed(Transport(reason)), [request])
      case Reply(status, retryAfter, body) =>
        if status == StatusTooManyRequests then
          if retryAfter.None? then Trace(Failed(BadRetryAfter), [request])
          else Prepend([request], Run(token, rest[1..], cursor, acc))
        else
          match body
          case Unreadable => Trace(Failed(ReadFailed), [request])
          case Malformed => Trace(Failed(DecodeFailed), [request])
          case Decoded(page) =>
            if !page.ok then Trace(Failed(Api(page.error)), [request])
            else if page.nextCursor == "" then Trace(Listed(acc + page.emoji), [request])
            else Prepend([request], Run(token, rest[1..], page.nextCursor, acc + page.emoji))
  }

  /** listEmoji starts from the empty cursor and an empty catalog. */
  function ListTrace(token: string, script: seq<Response>): Trace {
    Run(token, script, "", map[])
  }

  // ---------------------------------------------------------------------------
  // The loop as the source writes it
  // ---------------------------------------------------------------------------

  /** `for k, v := range e.Emojis { emojis[k] = v }`, visiting the page's keys
      in an arbitrary order: afterwards the page's entries override. */
  method MergePage(emojis: EmojiMap, page: EmojiMap) returns (merged: EmojiMap)
    ensures merged.Keys == emojis.Keys + page.Keys
    ensures forall k :: k in page ==> merged[k] == page[k]
    ensures forall k :: k in emojis && k !in page ==> merged[k] == emojis[k]
    ensures merged == emojis + page
  {
    merged := emojis;
    var remaining := page.Keys;
    while remaining != {}
      invariant remaining <= page.Keys
      invariant merged.Keys == emojis.Keys + (page.Keys - remaining)
      invariant forall k :: k in merged ==> merged[k] == if k in page && k !in remaining then page[k] else emojis[k]
      decreases remaining
    {
      var k :| k in remaining;
      merged := merged[k := page[k]];
      remaining := remaining - {k};
    }
    assert merged.Keys == (emojis + page).Keys;
  }

  /** slackClient.listEmoji, answering its i-th request with script[i]. */
  method ListEmoji(client: SlackClient, script: seq<Response>) returns (outcome: Outcome, requests: seq<Request>)
    ensures Trace(outcome, requests) == ListTrace(client.token, script)
  {
    var emojis: EmojiMap := map[];
    var limit := PageLimit;
    var cursor := "";
    var i := 0;
    requests := [];
    while i < |script|
      invariant 0 <= i <= |script|
      invariant ListTrace(client.token, script) == Prepend(requests, Run(client.token, script[i..], cursor, emojis))
      decreases |script| - i
    {
      ghost var rest := script[i..];
      var request := Request(client.token, limit, cursor);
      var response := script[i];
      assert rest[0] == response && rest[1..] == script[i + 1..];
      assert Run(client.token, rest, cursor, emojis)
        == match response
           case TransportFailure(reason) => Trace(Failed(Transport(reason)), [request])
           case Reply(status, retryAfter, body) =>
             if status == StatusTooManyRequests then
               if retryAfter.None? then Trace(Failed(BadRetryAfter), [request])
               else Prepend([request], Run(client.token, script[i + 1..], cursor, emojis))
             else
               match body
               case Unreadable => Trace(Failed(ReadFailed), [request])
               case Malformed => Trace(Failed(DecodeFailed), [request])
               case Decoded(page) =>
                 if !page.ok then Trace(Failed(Api(page.error)), [request])
                 else if page.nextCursor == "" then Trace(Listed(emojis + page.emoji), [request])
                 else Prepend([request], Run(client.token, script[i + 1..], page.nextCursor, emojis + page.emoji));
      ghost var before := requests;
      requests := requests + [request];
      i := i + 1;
      match response
      case TransportFailure(reason) =>
        return Failed(Transport(reason)), requests;
      case Reply(status, retryAfter, body) =>
        if status == StatusTooManyRequests {
          if retryAfter.None? {
            return Failed(BadRetryAfter), requests;
          }
          PrependTwice(before, [request], Run(client.token, script[i..], cursor, emojis));
          continue;
        }
        match body
        case Unreadable =>
          return Failed(ReadFailed), requests;
        case Malformed =>
          return Failed(DecodeFailed), requests;
        case Decoded(page) =>
          if !page.ok {
            return Failed(Api(page.error)), requests;
          }
          emojis := MergePage(emojis, page.emoji);
          if page.nextCursor == "" {
            return Listed(emojis), requests;
          }
          PrependTwice(before, [request], Run(client.token, script[i..], page.nextCursor, emojis));
          cursor := page.nextCursor;
    }
    outcome := ScriptExhausted(cursor);
  }
}
