# slack-emoji-dump, modelled in Dafny

The program fetches every custom emoji of a Slack workspace through the
paginated `emoji.list` endpoint, skips the entries whose value is an alias
(`alias:<name>`), and downloads every other entry's image to
`<cwd>/emojis/<name><extension of the URL>`. Any error ends the process.

The model has six modules:

- `Wrappers` (wrappers.dfy): `Option`.
- `GoPath` (gopath.dfy): the Go library functions the program relies on, as
  pure functions on strings: `strings.HasPrefix`, `path.Ext` (the backwards
  scan that stops at a `/`), and `path.Join` with the lexical rules of
  `path.Clean`.
- `Lister` (lister.dfy): `slackClient.listEmoji` as an imperative method.
  `ListEmoji` runs a `while` loop that keeps a cursor and an accumulated
  catalog. It answers its i-th request with the i-th response of a finite
  script. A response is one of four things:
  - a transport error;
  - a reply with a status, a parsed `Retry-After` hint (`Option<int>`) and a
    body;
  - a body that cannot be read, or one that is not valid JSON;
  - a decoded page (`ok`, `error`, partial catalog, `next_cursor`).

  `MergePage` is the inner `for k, v := range e.Emojis` loop. The function
  `Run` is the reference definition that the method is proved equal to.
- `ListerFacts` (lister_facts.dfy): the listing's properties, stated over the
  script. Each response is classified as one of four kinds:
  - a retry (a 429 with a parsed hint);
  - a middle page (an ok page with a non-empty cursor);
  - the last page (an ok page with an empty cursor);
  - a failure.

  The first response that is not a retry or a middle page (`FirstStop`)
  decides the outcome. On success the catalog is the left-to-right merge of
  the ok pages received, a later page winning a name. On failure there is
  no catalog. No request is made after the deciding response, and the
  request after a retry is identical to the one before it.
- `Download` (download.dfy): the alias test, the file name `k + path.Ext(v)`,
  the destination `path.Join(cwd, "emojis", name)`, and the download loop of
  `main`. Go visits a map in an unspecified order, so the loop picks the next
  name by arbitrary choice (`:|`). Its postconditions are therefore about set
  membership, not order.
- `Program` (program.dfy): `main`, composing the two. The working directory,
  the token, the listing script and the per-call download outcome are
  parameters.

Running out of scripted responses is a separate outcome, `ScriptExhausted`.
The program itself would keep waiting on the network, or keep retrying
after 429 responses without a bound.

## Model

| member | source | states |
|---|---|---|
| `Lister.ListEmoji` | main.go:64-109 | The loop's outcome and the exact sequence of requests it issues equal the reference definition `ListTrace` for every script |
| `Lister.MergePage` | main.go:98-100 | Copying a page into the catalog in any key order yields the union of names, with the page's values overriding and other names untouched |
| `ListerFacts.FirstStop` | main.go:69-106 | Gives the index of the first response after which the loop makes no further request: every earlier one is a retry or a page with a non-empty cursor, and the one at that index is not |
| `ListerFacts.RunDecidedByFirstStop` | main.go:69-106 | From any loop state, the first response that does not continue decides the outcome. A last page returns the accumulated catalog merged with every ok page received. A failing response returns its error and no catalog. With no such response the script runs out, holding the cursor the responses left. Exactly one request is made per response up to that point |
| `ListerFacts.RunRequests` | main.go:66-105 | Every request carries the client's token and limit 20. The first uses the current cursor. Each later one uses the cursor left by the previous response: unchanged after a 429, `next_cursor` after a page |
| `ListerFacts.ListingSucceeds` | main.go:98-108 | The listing succeeds exactly when the first response that does not continue is an ok page with an empty `next_cursor`. The catalog is then the left-to-right merge of all ok pages, and that page is the last one requested |
| `ListerFacts.ListingFails` | main.go:72-96 | The listing fails exactly when the first response that does not continue is a failure. Its error is that response's error, no catalog is returned, and no request follows it |
| `ListerFacts.ListingExhausts` | main.go:69-106 | The listing runs out of script exactly when every scripted response asks for another request, and then holds the cursor those responses left |
| `ListerFacts.ListingRequests` | main.go:66-105 | The first request is (token, 20, empty cursor). Every later request follows the cursor rule |
| `ListerFacts.RetryRepeatsRequest` | main.go:75-81 | After a 429 whose `Retry-After` parsed, the next request is identical to the previous one |
| `ListerFacts.RetryKeepsState` | main.go:75-81 | A 429 whose hint parsed costs one request and leaves the cursor and the accumulated catalog unchanged |
| `ListerFacts.BadRetryAfterStops` | main.go:76-78 | A 429 whose `Retry-After` does not parse fails at once with that error and makes no retry |
| `ListerFacts.OtherStatusIgnored` | main.go:75-96 | For every status other than 429, neither the status nor the header affects what the loop does. Only the body decides |
| `ListerFacts.NotOkPageCarriesError` | main.go:94-95 | A decoded page with `ok` false fails with the page's `error` text |
| `ListerFacts.MergeFromKeys` | main.go:98-100 | The merged catalog defines exactly the names of the starting catalog and of the pages |
| `ListerFacts.MergeFromLastWins` | main.go:98-100 | A name takes the value of the last page that defines it |
| `ListerFacts.MergeFromUntouched` | main.go:98-100 | A name that no page defines keeps its earlier value |
| `ListerFacts.MergeAllCountsEntries` | main.go:98-100 | Pages that share no names, with N entries in all, merge into a catalog of exactly N names |
| `GoPath.HasPrefixIffConcat` | main.go:49 | `strings.HasPrefix(s, p)` holds exactly when `s` is `p` followed by some string |
| `GoPath.ExtScanFinds` | main.go:56 | The backwards scan of `path.Ext` either finds the last '.' with no '.' or '/' after it, or finds that every '.' scanned lies before a '/' |
| `GoPath.ExtCharacterized` | main.go:56 | `path.Ext(p)` is a suffix of `p`. When non-empty it starts with its only '.' and has no '/'. It is empty exactly when the last path element has no '.' |
| `GoPath.ExtExamples` | main.go:56 | Ext gives ".png", ".gif", "" (a dot only in the host name), and ".gz" (only the last dot) on sample URLs |
| `GoPath.SplitJoinSegments` | main.go:57 | Splitting on '/' undoes joining elements that contain no '/' |
| `GoPath.JoinPlainUnderAbsolute` | main.go:57 | `path.Join` of a clean absolute directory and two plain elements is their '/'-concatenation: Clean removes nothing |
| `Download.DownloadAll` | main.go:48-61 | Every download attempted is owed: a non-alias entry, with destination `Join(cwd, "emojis", k + Ext(v))`. No entry is downloaded twice. If the run completes, every owed download was made and succeeded. Otherwise the last call failed, every earlier one succeeded, and nothing was attempted after it |
| `Download.AliasIsPrefixed` | main.go:49 | A value is skipped as an alias exactly when it is "alias:" followed by something |
| `Download.FileNameIsPlain` | main.go:56 | A plain emoji name with the URL's extension appended is still one plain path element |
| `Download.DestinationUnderEmojiDir` | main.go:56-57 | Under a clean absolute working directory, an entry with a plain name is written to `<cwd>/emojis/<name><ext>` |
| `Download.DestinationOneLevelDown` | main.go:56-57 | For a working directory `/<dir>` and a plain name, the destination is `/<dir>/emojis/<name><ext>` |
| `Download.PartyExample` | main.go:56-57 | The entry "party" → https://example.com/img.png goes to /work/emojis/party.png |
| `Download.AliasExample` | main.go:48-57 | The catalog {"a": "https://x/1.gif", "b": "alias:a"} owes exactly one download, "a" to /work/emojis/a.gif |
| `Program.DumpEmoji` | main.go:32-62 | A listing failure is fatal before any download. A successful listing leads to the download loop. No entry is downloaded twice. A fatal exit after a successful listing comes right after the first failed download, every earlier one having succeeded. The process exits cleanly exactly when the listing succeeded and every owed download was made and succeeded |

## Left out

- HTTP (`http.Get`, main.go:72 and 112) is replaced by the script of responses and by `downloadOk`. JSON decoding (main.go:91) is replaced by an already-decoded page or a `Malformed` body.
- The URL text (main.go:70) is not modelled. A request is its parameter values: token, limit and cursor. The unescaped interpolation of token and cursor is therefore not modelled.
- `strconv.ParseInt` (main.go:76) is not modelled: the parsed `Retry-After` hint is given as `Option<int>`. Any parsed value, including a negative one, leads to a retry.
- `time.Sleep` and the length of the wait (main.go:80) are not modelled. Only the fact of the retry is.
- The unbounded retry loop (main.go:69-106) is driven by a finite script. Running out of script is a separate outcome, `ScriptExhausted`.
- Deferred `resp.Body.Close()` calls (main.go:84, 117) are not modelled. Neither is the body of a 429 reply that is never closed. These are resource use only.
- `ListerFacts.NotOkPageCarriesError`: `fmt.Errorf(e.Error)` (main.go:95) uses the server's text as a format string. The model carries the text verbatim, so a text containing `%` verbs would be rewritten by Go but not by the model.
- `downloadImageToFile` (main.go:111-127) is only an abstract success or failure per call. Its file creation and byte copying, and the partial file left behind on failure, are not modelled.
- `os.Getwd` and its failure (main.go:33-36) are not modelled: the working directory is a parameter. `os.Getenv("TOKEN")` (main.go:38) is likewise a parameter.
- The `log` lines (main.go:50, 54) are not modelled. `log.Fatal`'s exit status 1 is modelled as `ExitFatal`.
- The order in which Go visits a map is not modelled. The download loop chooses each next entry arbitrarily, and its properties speak of membership rather than order.
- `ListerFacts.MergeAllCountsEntries`: the count "N entries give N names" holds only when the pages share no names. When pages overlap, the merge keeps the later value, as `MergeFromLastWins` states.
