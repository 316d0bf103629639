/** What the listing loop promises, stated over the script of responses
    rather than over the loop's branches. */
module ListerFacts {
  import opened Wrappers
  import opened Lister

  // ---------------------------------------------------------------------------
  // Classifying a single response
  // ---------------------------------------------------------------------------

  /** A 429 reply whose Retry-After parsed: the loop sleeps and asks again. */
  predicate IsRetry(r: Response) {
    r.Reply? && r.status == StatusTooManyRequests && r.retryAfter.Some?
  }

  /** Any other status whose body decoded to a page with ok set. */
  predicate IsOkPage(r: Response) {
    r.Reply? && r.status != StatusTooManyRequests && r.body.Decoded? && r.body.page.ok
  }

  predicate IsLastPage(r: Response) {
    IsOkPage(r) && r.body.page.nextCursor == ""
  }

  predicate IsMiddlePage(r: Response) {
    IsOkPage(r) && r.body.page.nextCursor != ""
  }

  /** After this response the loop issues another request. */
  predicate Continues(r: Response) {
    IsRetry(r) || IsMiddlePage(r)
  }

  /** After this response the loop gives up. */
  predicate Fails(r: Response) {
    !Continues(r) && !IsLastPage(r)
  }

  /** The error a failing response produces: the transport's error, a bad
      Retry-After hint on a 429, a body that could not be read or decoded,
      or the page's own error text when ok is false. */
  function ErrorOf(r: Response): ListError
    requires Fails(r)
  {
    match r
    case TransportFailure(reason) => Transport(reason)
    case Reply(status, _, body) =>
      if status == StatusTooManyRequests then BadRetryAfter
      else match body
        case Unreadable => ReadFailed
        case Malformed => DecodeFailed
        case Decoded(page) => Api(page.error)
  }

  /** The cursor of the request that follows response `r`, sent with `cursor`. */
  function CursorAfter(r: Response, cursor: string): string {
    if IsMiddlePage(r) then r.body.page.nextCursor else cursor
  }

  /** The cursor the loop holds after the responses `rs`, starting from `cursor`. */
  function CursorThrough(rs: seq<Response>, cursor: string): string
    decreases |rs|
  {
    if rs == [] then cursor else CursorThrough(rs[1..], CursorAfter(rs[0], cursor))
  }

  /** The index of the first response that does not continue the loop, or
      the script's length when every response does. */
  function FirstStop(rs: seq<Response>): (k: nat)
    ensures k <= |rs|
    ensures forall i :: 0 <= i < k ==> Continues(rs[i])
    ensures k < |rs| ==> !Continues(rs[k])
  {
    if rs == [] || !Continues(rs[0]) then 0 else 1 + FirstStop(rs[1..])
  }

  // ---------------------------------------------------------------------------
  // Merging pages
  // ---------------------------------------------------------------------------

  /** The partial catalogs of the ok pages among `rs`, in order. */
  function PagesOf(rs: seq<Response>): seq<EmojiMap> {
    if rs == [] then []
    else (if IsOkPage(rs[0]) then [rs[0].body.page.emoji] else []) + PagesOf(rs[1..])
  }

  /** `acc` with the pages merged into it left to right. */
  function MergeFrom(acc: EmojiMap, pages: seq<EmojiMap>): EmojiMap
    decreases |pages|
  {
    if pages == [] then acc else MergeFrom(acc + pages[0], pages[1..])
  }

  function MergeAll(pages: seq<EmojiMap>): EmojiMap {
    MergeFrom(map[], pages)
  }

  /** The names defined by some page. */
  function AllNames(pages: seq<EmojiMap>): set<string> {
    if pages == [] then {} else pages[0].Keys + AllNames(pages[1..])
  }

  /** The merged catalog defines exactly the names of `acc` and of the pages. */
  lemma {:induction false} MergeFromKeys(acc: EmojiMap, pages: seq<EmojiMap>)
    ensures MergeFrom(acc, pages).Keys == acc.Keys + AllNames(pages)
    decreases |pages|
  {
    if pages != [] {
      MergeFromKeys(acc + pages[0], pages[1..]);
    }
  }

  /** A name keeps the value of the last page that defines it. */
  lemma {:induction false} MergeFromLastWins(acc: EmojiMap, pages: seq<EmojiMap>, i: nat, name: string)
    requires i < |pages| && name in pages[i]
    requires forall j :: i < j < |pages| ==> name !in pages[j]
    ensures name in MergeFrom(acc, pages) && MergeFrom(acc, pages)[name] == pages[i][name]
    decreases |pages|
  {
    if i == 0 {
      MergeFromUntouched(acc + pages[0], pages[1..], name);
    } else {
      MergeFromLastWins(acc + pages[0], pages[1..], i - 1, name);
    }
  }

  /** A name no page defines keeps its value from `acc`. */
  lemma {:induction false} MergeFromUntouched(acc: EmojiMap, pages: seq<EmojiMap>, name: string)
    requires name in acc
    requires forall j :: 0 <= j < |pages| ==> name !in pages[j]
    ensures name in MergeFrom(acc, pages) && MergeFrom(acc, pages)[name] == acc[name]
    decreases |pages|
  {
    if pages != [] {
      MergeFromUntouched(acc + pages[0], pages[1..], name);
    }
  }

  /** The pages split the catalog without overlap. */
  predicate PairwiseDisjoint(pages: seq<EmojiMap>) {
    forall i, j :: 0 <= i < j < |pages| ==> pages[i].Keys !! pages[j].Keys
  }

  function TotalEntries(pages: seq<EmojiMap>): nat {
    if pages == [] then 0 else |pages[0]| + TotalEntries(pages[1..])
  }

  /** N entries spread over pages that do not share names merge into a
      catalog of exactly N names. */
  lemma {:induction false} MergeAllCountsEntries(pages: seq<EmojiMap>)
    requires PairwiseDisjoint(pages)
    ensures |MergeAll(pages)| == TotalEntries(pages)
  {
    MergeFromKeys(map[], pages);
    DisjointNamesCount(pages);
    assert MergeAll(pages).Keys == AllNames(pages);
  }

  lemma {:induction false} DisjointNamesCount(pages: seq<EmojiMap>)
    requires PairwiseDisjoint(pages)
    ensures |AllNames(pages)| == TotalEntries(pages)
    decreases |pages|
  {
    if pages != [] {
      var tail := pages[1..];
      assert PairwiseDisjoint(tail) by {
        forall i, j | 0 <= i < j < |tail| ensures tail[i].Keys !! tail[j].Keys {
          assert tail[i] == pages[i + 1] && tail[j] == pages[j + 1];
        }
      }
      DisjointNamesCount(tail);
      NamesOfLaterPages(pages, pages[0].Keys);
      assert |pages[0].Keys| == |pages[0]|;
    }
  }

  /** A set of names disjoint from every later page is disjoint from their union. */
  lemma {:induction false} NamesOfLaterPages(pages: seq<EmojiMap>, first: set<string>)
    requires |pages| > 0 && PairwiseDisjoint(pages) && first == pages[0].Keys
    ensures first !! AllNames(pages[1..])
  {
    forall name | name in AllNames(pages[1..]) ensures name !in first {
      var j := DefiningPage(pages[1..], name);
      assert pages[1..][j] == pages[j + 1];
    }
  }

  /** The index of some page that defines `name`. */
  lemma {:induction false} DefiningPage(pages: seq<EmojiMap>, name: string) returns (j: nat)
    requires name in AllNames(pages)
    ensures j < |pages| && name in pages[j]
    decreases |pages|
  {
    if name in pages[0] {
      j := 0;
    } else {
      var k := DefiningPage(pages[1..], name);
      j := k + 1;
    }
  }

  // ---------------------------------------------------------------------------
  // The loop over a whole script
  // ---------------------------------------------------------------------------

  /** The first response that does not continue decides everything: if it is
      the last page the catalog is `acc` merged with every ok page up to and
      including it, if it fails the outcome is its error and no catalog, and
      if there is none the script runs out. Exactly one request is issued per
      response up to that point, and none after it. */
  lemma {:induction false} RunDecidedByFirstStop(token: string, rest: seq<Response>, cursor: string, acc: EmojiMap)
    ensures var t, k := Run(token, rest, cursor, acc), FirstStop(rest);
      if k == |rest| then
        t.outcome == ScriptExhausted(CursorThrough(rest, cursor)) && |t.requests| == |rest|
      else
        && |t.requests| == k + 1
        && (IsLastPage(rest[k]) ==> t.outcome == Listed(MergeFrom(acc, PagesOf(rest[..k + 1]))))
        && (Fails(rest[k]) ==> t.outcome == Failed(ErrorOf(rest[k])))
    decreases |rest|
  {
    if rest != [] {
      var r := rest[0];
      var k := FirstStop(rest);
      if Continues(r) {
        var next := if IsRetry(r) then acc else acc + r.body.page.emoji;
        var tail := rest[1..];
        RunDecidedByFirstStop(token, tail, CursorAfter(r, cursor), next);
        assert Run(token, rest, cursor, acc)
          == Prepend([Request(token, PageLimit, cursor)], Run(token, tail, CursorAfter(r, cursor), next));
        if k < |rest| {
          assert rest[k] == tail[k - 1];
          assert rest[..k + 1] == [r] + tail[..k];
          assert PagesOf(rest[..k + 1]) == (if IsOkPage(r) then [r.body.page.emoji] else []) + PagesOf(tail[..k]);
          if IsMiddlePage(r) {
            assert MergeFrom(acc, [r.body.page.emoji] + PagesOf(tail[..k])) == MergeFrom(next, PagesOf(tail[..k])) by {
              assert ([r.body.page.emoji] + PagesOf(tail[..k]))[1..] == PagesOf(tail[..k]);
            }
          } else {
            assert [] + PagesOf(tail[..k]) == PagesOf(tail[..k]);
          }
        }
      } else if IsLastPage(r) {
        assert rest[..1] == [r];
        assert PagesOf([r]) == [r.body.page.emoji] by {
          assert [r][1..] == [];
        }
        assert MergeFrom(acc, [r.body.page.emoji]) == acc + r.body.page.emoji by {
          assert [r.body.page.emoji][1..] == [];
        }
      }
    }
  }

  /** Every request carries the client's token and the page size; the first
      uses the starting cursor and each later one the cursor the previous
      response left: the same one after a 429, the page's next_cursor after a
      page. */
  lemma {:induction false} RunRequests(token: string, rest: seq<Response>, cursor: string, acc: EmojiMap)
    ensures var rq := Run(token, rest, cursor, acc).requests;
      && |rq| <= |rest|
      && (forall j :: 0 <= j < |rq| ==> rq[j].token == token && rq[j].limit == PageLimit)
      && (|rq| > 0 ==> rq[0].cursor == cursor)
      && (forall j :: 0 <= j < |rq| - 1 ==> rq[j + 1].cursor == CursorAfter(rest[j], rq[j].cursor))
    decreases |rest|
  {
    if rest != [] && Continues(rest[0]) {
      var r := rest[0];
      var next := if IsRetry(r) then acc else acc + r.body.page.emoji;
      var tail := rest[1..];
      var request := Request(token, PageLimit, cursor);
      RunRequests(token, tail, CursorAfter(r, cursor), next);
      var later := Run(token, tail, CursorAfter(r, cursor), next).requests;
      assert Run(token, rest, cursor, acc).requests == [request] + later;
      var rq := [request] + later;
      forall j | 0 <= j < |rq| - 1
        ensures rq[j + 1].cursor == CursorAfter(rest[j], rq[j].cursor)
      {
        if j > 0 {
          assert rq[j] == later[j - 1] && rq[j + 1] == later[j] && rest[j] == tail[j - 1];
        }
      }
    }
  }

  // ---------------------------------------------------------------------------
  // The same facts for listEmoji as called by the program
  // ---------------------------------------------------------------------------

  /** listEmoji succeeds exactly when the first response that does not
      continue is a page with an empty next_cursor; the catalog is then the
      left-to-right merge of every ok page received, a later page winning a
      name, and that page is the last one requested. */
  lemma ListingSucceeds(token: string, script: seq<Response>)
    ensures var t, k := ListTrace(token, script), FirstStop(script);
      && (t.outcome.Listed? <==> k < |script| && IsLastPage(script[k]))
      && (t.outcome.Listed? ==> t.outcome.emoji == MergeAll(PagesOf(script[..k + 1])) && |t.requests| == k + 1)
  {
    RunDecidedByFirstStop(token, script, "", map[]);
  }

  /** listEmoji fails exactly when the first response that does not continue
      fails; the error is that response's and no catalog is returned. */
  lemma ListingFails(token: string, script: seq<Response>)
    ensures var t, k := ListTrace(token, script), FirstStop(script);
      && (t.outcome.Failed? <==> k < |script| && Fails(script[k]))
      && (t.outcome.Failed? ==> t.outcome.error == ErrorOf(script[k]) && |t.requests| == k + 1)
  {
    RunDecidedByFirstStop(token, script, "", map[]);
  }

  /** Running out of script happens only when every scripted response asked
      for another request; the loop then holds the cursor they left it with. */
  lemma ListingExhausts(token: string, script: seq<Response>)
    ensures var t := ListTrace(token, script);
      && (t.outcome.ScriptExhausted? <==> forall j :: 0 <= j < |script| ==> Continues(script[j]))
      && (t.outcome.ScriptExhausted? ==> t.outcome.cursor == CursorThrough(script, ""))
  {
    RunDecidedByFirstStop(token, script, "", map[]);
  }

  /** The first request asks for 20 emoji from the empty cursor; each later
      one repeats the cursor after a 429 and follows next_cursor after a page. */
  lemma ListingRequests(token: string, script: seq<Response>)
    ensures var rq := ListTrace(token, script).requests;
      && |rq| <= |script|
      && (script != [] ==> |rq| > 0 && rq[0] == Request(token, PageLimit, ""))
      && (forall j :: 0 <= j < |rq| ==> rq[j].token == token && rq[j].limit == PageLimit)
      && (forall j :: 0 <= j < |rq| - 1 ==> rq[j + 1].cursor == CursorAfter(script[j], rq[j].cursor))
  {
    RunRequests(token, script, "", map[]);
    if script != [] {
      RunDecidedByFirstStop(token, script, "", map[]);
    }
  }

  /** After a 429 whose hint parsed, the identical request is issued again. */
  lemma RetryRepeatsRequest(token: string, script: seq<Response>, j: nat)
    requires j < |script| && IsRetry(script[j])
    requires j + 1 < |ListTrace(token, script).requests|
    ensures ListTrace(token, script).requests[j + 1] == ListTrace(token, script).requests[j]
  {
    ListingRequests(token, script);
  }

  /** A 429 whose hint parsed leaves the loop's state alone: the cursor and the
      accumulated catalog are the same for the next request. */
  lemma RetryKeepsState(token: string, r: Response, rest: seq<Response>, cursor: string, acc: EmojiMap)
    requires IsRetry(r)
    ensures Run(token, [r] + rest, cursor, acc) == Prepend([Request(token, PageLimit, cursor)], Run(token, rest, cursor, acc))
  {
    assert ([r] + rest)[1..] == rest;
  }

  /** A 429 whose hint did not parse fails at once, without a retry. */
  lemma BadRetryAfterStops(token: string, status: int, body: Body, rest: seq<Response>, cursor: string, acc: EmojiMap)
    requires status == StatusTooManyRequests
    ensures Run(token, [Reply(status, None, body)] + rest, cursor, acc)
      == Trace(Failed(BadRetryAfter), [Request(token, PageLimit, cursor)])
  {
  }

  /** Only 429 is special: for any other status neither the status nor the
      Retry-After header changes what the loop does with the body. */
  lemma OtherStatusIgnored(token: string, status: int, hint: Option<int>, body: Body, rest: seq<Response>, cursor: string, acc: EmojiMap)
    requires status != StatusTooManyRequests
    ensures Run(token, [Reply(status, hint, body)] + rest, cursor, acc) == Run(token, [Reply(200, None, body)] + rest, cursor, acc)
  {
  }

  /** A page with ok false fails with that page's error text. */
  lemma NotOkPageCarriesError(token: string, page: EmojiPage, status: int, hint: Option<int>, rest: seq<Response>, cursor: string, acc: EmojiMap)
    requires status != StatusTooManyRequests && !page.ok
    ensures Run(token, [Reply(status, hint, Decoded(page))] + rest, cursor, acc).outcome == Failed(Api(page.error))
  {
  }
}
