/** The download step of the program, driven by the catalog: alias entries are
    skipped, every other entry is fetched to `<cwd>/emojis/<name><ext>`, and the
    first failed download ends the run. The download itself (an HTTP GET
    streamed into a new file) is an abstract success or failure per call. */
module Download {
  import opened GoPath

  /** Values with this literal prefix name another emoji instead of an image. */
  const AliasPrefix := "alias:"

  /** The directory under the working directory that receives the images. */
  const EmojiDir := "emojis"

  predicate IsAlias(value: string) {
    HasPrefix(value, AliasPrefix)
  }

  /** `k + path.Ext(v)`. */
  function FileName(name: string, value: string): string {
    name + Ext(value)
  }

  /** `path.Join(cwd, "emojis", name)`. */
  function Destination(cwd: string, name: string, value: string): string {
    Join([cwd, EmojiDir, FileName(name, value)])
  }

  /** One call of downloadImageToFile: the entry, the destination path and the URL. */
  datatype DownloadCall = DownloadCall(name: string, dest: string, url: string)

  function DownloadFor(cwd: string, name: string, value: string): DownloadCall {
    DownloadCall(name, Destination(cwd, name, value), value)
  }

  /** `d` is the download the program owes for a non-alias catalog entry. */
  predicate IsPlanned(cwd: string, catalog: map<string, string>, d: DownloadCall) {
    d.name in catalog && !IsAlias(catalog[d.name]) && d == DownloadFor(cwd, d.name, catalog[d.name])
  }

  datatype DownloadStatus = Completed | Aborted(failed: DownloadCall)

  /** The `for k, v := range emojis` loop of main. Go visits the map's entries
      in an unspecified order, modelled by an arbitrary choice of the next
      name; `downloadOk` says which calls of downloadImageToFile succeed.
      Every call made is owed, none is made twice, and either every owed call
      was made and succeeded, or the last call made failed and nothing was
      attempted after it. */
  method DownloadAll(cwd: string, catalog: map<string, string>, downloadOk: DownloadCall -> bool)
    returns (calls: seq<DownloadCall>, status: DownloadStatus)
    ensures forall i :: 0 <= i < |calls| ==> IsPlanned(cwd, catalog, calls[i])
    ensures forall i, j :: 0 <= i < j < |calls| ==> calls[i].name != calls[j].name
    ensures status.Completed? ==>
      && (forall i :: 0 <= i < |calls| ==> downloadOk(calls[i]))
      && (forall d :: IsPlanned(cwd, catalog, d) ==> d in calls)
    ensures status.Aborted? ==>
      && |calls| > 0
      && status.failed == calls[|calls| - 1]
      && !downloadOk(status.failed)
      && (forall i :: 0 <= i < |calls| - 1 ==> downloadOk(calls[i]))
  {
    calls := [];
    var remaining := catalog.Keys;
    while remaining != {}
      invariant remaining <= catalog.Keys
      invariant forall i :: 0 <= i < |calls| ==> IsPlanned(cwd, catalog, calls[i]) && calls[i].name !in remaining
      invariant forall i, j :: 0 <= i < j < |calls| ==> calls[i].name != calls[j].name
      invariant forall i :: 0 <= i < |calls| ==> downloadOk(calls[i])
      invariant forall d :: IsPlanned(cwd, catalog, d) && d.name !in remaining ==> d in calls
      decreases remaining
    {
      var name :| name in remaining;
      remaining := remaining - {name};
      var value := catalog[name];
      if IsAlias(value) {
        continue;
      }
      var fileName := name + Ext(value);
      var d := DownloadCall(name, Join([cwd, EmojiDir, fileName]), value);
      calls := calls + [d];
      if !downloadOk(d) {
        return calls, Aborted(d);
      }
    }
    status := Completed;
  }

  /** A value is treated as an alias exactly when it is "alias:" followed by
      some string (possibly empty); only the prefix is tested. */
  lemma AliasIsPrefixed(value: string)
    ensures IsAlias(value) <==> exists target :: value == AliasPrefix + target
  {
    HasPrefixIffConcat(value, AliasPrefix);
  }

  /** A plain emoji name stays a single plain path element once the URL's
      extension is appended. */
  lemma FileNameIsPlain(name: string, value: string)
    requires IsPlainElement(name)
    ensures IsPlainElement(FileName(name, value))
  {
    ExtCharacterized(value);
    var e := Ext(value);
    var f := name + e;
    forall c | c in f ensures c != '/' {
      var i :| 0 <= i < |f| && f[i] == c;
      if i < |name| {
        assert f[i] == name[i];
      } else {
        assert f[i] == e[i - |name|];
        if i - |name| == 0 {
          assert e[0] == '.';
        }
      }
    }
    assert f[..|name|] == name;
  }

  /** Under a clean absolute working directory, an entry with a plain name
      goes to `<cwd>/emojis/<name><ext>` and nowhere else. */
  lemma DestinationUnderEmojiDir(cwdSegs: seq<string>, name: string, value: string)
    requires AllPlain(cwdSegs) && IsPlainElement(name)
    ensures Destination(AbsolutePath(cwdSegs), name, value)
      == AbsolutePath(cwdSegs + [EmojiDir, name + Ext(value)])
  {
    FileNameIsPlain(name, value);
    JoinPlainUnderAbsolute(cwdSegs, EmojiDir, FileName(name, value));
  }

  /** The same for a working directory one level below the root. */
  lemma DestinationOneLevelDown(dir: string, name: string, value: string)
    requires IsPlainElement(dir) && IsPlainElement(name)
    ensures Destination("/" + dir, name, value) == "/" + dir + "/" + EmojiDir + "/" + name + Ext(value)
  {
    DestinationUnderEmojiDir([dir], name, value);
    assert AbsolutePath([dir]) == "/" + dir;
    JoinSegmentsAppend([dir], [EmojiDir, name + Ext(value)]);
    JoinSegmentsPair(EmojiDir, name + Ext(value));
    assert [dir] + [EmojiDir, name + Ext(value)] == [dir, EmojiDir, name + Ext(value)];
  }

  /** The entry "party" with an image at https://example.com/img.png is
      written to `<cwd>/emojis/party.png`. */
  lemma PartyExample()
    ensures Destination("/work", "party", "https://example.com/img.png") == "/work/emojis/party.png"
  {
    ExtExamples();
    assert "/" + "work" == "/work";
    DestinationOneLevelDown("work", "party", "https://example.com/img.png");
    assert "/" + "work" + "/" + EmojiDir + "/" + "party" + ".png" == "/work/emojis/party.png";
  }

  /** The catalog {"a": "https://x/1.gif", "b": "alias:a"} owes exactly one
      download, of "a" to `<cwd>/emojis/a.gif`; "b" owes nothing. */
  lemma AliasExample(d: DownloadCall)
    ensures var catalog := map["a" := "https://x/1.gif", "b" := "alias:a"];
      IsPlanned("/work", catalog, d) <==> d == DownloadCall("a", "/work/emojis/a.gif", "https://x/1.gif")
  {
    ExtExamples();
    assert "/" + "work" == "/work";
    DestinationOneLevelDown("work", "a", "https://x/1.gif");
    assert "/" + "work" + "/" + EmojiDir + "/" + "a" + ".gif" == "/work/emojis/a.gif";
    assert IsAlias("alias:a") by {
      assert "alias:a"[..|AliasPrefix|] == AliasPrefix;
    }
    assert !IsAlias("https://x/1.gif") by {
      assert "https://x/1.gif"[0] != 'a';
    }
  }
}
