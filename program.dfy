/** The program's entry point: list the catalog, then download every
    non-alias entry into `<cwd>/emojis`, stopping the process at the first
    error. The working directory and the TOKEN environment variable are
    parameters; the network is the listing script and `downloadOk`. */
module Program {
  import opened Lister
  import opened Download

  /** How the process ends: exit status 0, or log.Fatal's exit status 1.
      Unfinished is the listing script running out, which a real run cannot
      distinguish from waiting for the server. */
  datatype Exit = ExitOk | ExitFatal | Unfinished

  /** main: any listing error is fatal before any download; otherwise no
      entry is downloaded twice, a fatal exit comes right after the first
      failed download, and the run exits cleanly exactly when every owed
      download was made and succeeded. */
  method DumpEmoji(cwd: string, token: string, script: seq<Response>, downloadOk: DownloadCall -> bool)
    returns (exit: Exit, listing: Outcome, requests: seq<Request>, calls: seq<DownloadCall>)
    ensures Trace(listing, requests) == ListTrace(token, script)
    ensures !listing.Listed? ==> calls == []
    ensures listing.Failed? <==> exit == ExitFatal && calls == []
    ensures listing.ScriptExhausted? <==> exit == Unfinished
    ensures listing.Listed? ==> forall i :: 0 <= i < |calls| ==> IsPlanned(cwd, listing.emoji, calls[i])
    ensures forall i, j :: 0 <= i < j < |calls| ==> calls[i].name != calls[j].name
    ensures listing.Listed? && exit == ExitFatal ==>
      && |calls| > 0
      && !downloadOk(calls[|calls| - 1])
      && (forall i :: 0 <= i < |calls| - 1 ==> downloadOk(calls[i]))
    ensures exit == ExitOk <==>
      && listing.Listed?
      && (forall d :: IsPlanned(cwd, listing.emoji, d) ==> d in calls)
      && (forall i :: 0 <= i < |calls| ==> downloadOk(calls[i]))
  {
    var client := SlackClient(token);
    listing, requests := ListEmoji(client, script);
    calls := [];
    match listing
    case Failed(_) =>
      exit := ExitFatal;
    case ScriptExhausted(_) =>
      exit := Unfinished;
    case Listed(emojis) =>
      var status;
      calls, status := DownloadAll(cwd, emojis, downloadOk);
      exit := if status.Completed? then ExitOk else ExitFatal;
  }
}
