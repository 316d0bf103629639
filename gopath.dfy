/** The lexical string and path helpers of Go's standard library that the
    program relies on: strings.HasPrefix, path.Ext, path.Clean and path.Join.
    They are pure functions on strings; nothing here touches a file system. */
module GoPath {

  /** strings.HasPrefix(s, prefix). */
  predicate HasPrefix(s: string, prefix: string) {
    |prefix| <= |s| && s[..|prefix|] == prefix
  }

  /** HasPrefix holds exactly when `s` is `prefix` followed by something. */
  lemma HasPrefixIffConcat(s: string, prefix: string)
    ensures HasPrefix(s, prefix) <==> exists rest :: s == prefix + rest
  {
    if HasPrefix(s, prefix) {
      assert s == prefix + s[|prefix|..];
    }
    forall rest | s == prefix + rest
      ensures HasPrefix(s, prefix)
    {
      assert s[..|prefix|] == prefix;
    }
  }

  // ---------------------------------------------------------------------------
  // path.Ext
  // ---------------------------------------------------------------------------

  /** path.Ext: the suffix of `p` that starts at the final '.' of its last
      '/'-separated element, or "" when that element has no '.'. */
  function Ext(p: string): string {
    ExtScan(p, |p|)
  }

  /** The loop of path.Ext, visiting p[i-1], p[i-2], ... and stopping at a '/'. */
  function ExtScan(p: string, i: nat): string
    requires i <= |p|
    decreases i
  {
    if i == 0 || p[i - 1] == '/' then ""
    else if p[i - 1] == '.' then p[i - 1..]
    else ExtScan(p, i - 1)
  }

  /** What the backwards scan finds among the first `i` characters of `p`. */
  lemma {:induction false} ExtScanFinds(p: string, i: nat)
    requires i <= |p|
    ensures var e := ExtScan(p, i);
      if e == "" then
        forall j :: 0 <= j < i && p[j] == '.' ==> exists l :: j < l < i && p[l] == '/'
      else
        var k := |p| - |e|;
        && 0 <= k < i
        && e == p[k..]
        && p[k] == '.'
        && forall j :: k < j < i ==> p[j] != '.' && p[j] != '/'
    decreases i
  {
    if i == 0 {
    } else if p[i - 1] == '/' {
      forall j | 0 <= j < i && p[j] == '.'
        ensures exists l :: j < l < i && p[l] == '/'
      {
        assert j < i - 1 && p[i - 1] == '/';
      }
    } else if p[i - 1] == '.' {
    } else {
      ExtScanFinds(p, i - 1);
      var e := ExtScan(p, i - 1);
      if e == "" {
        forall j | 0 <= j < i && p[j] == '.'
          ensures exists l :: j < l < i && p[l] == '/'
        {
          assert j < i - 1;
          var l :| j < l < i - 1 && p[l] == '/';
        }
      }
    }
  }

  /** path.Ext characterised without reference to its loop: a non-empty result
      is a suffix of `p` that begins with its only '.' and holds no '/'; an
      empty result means every '.' of `p` lies before some '/', that is, the
      last element has no '.'. */
  lemma ExtCharacterized(p: string)
    ensures var e := Ext(p);
      && |e| <= |p|
      && e == p[|p| - |e|..]
      && (e != "" ==> e[0] == '.' && forall j :: 0 < j < |e| ==> e[j] != '.' && e[j] != '/')
      && (e == "" <==> forall j :: 0 <= j < |p| && p[j] == '.' ==> exists l :: j < l < |p| && p[l] == '/')
  {
    ExtScanFinds(p, |p|);
    var e := Ext(p);
    if e != "" {
      var k := |p| - |e|;
      forall j | 0 < j < |e|
        ensures e[j] != '.' && e[j] != '/'
      {
        assert e[j] == p[k + j];
      }
      assert p[k] == '.';
      assert !(exists l :: k < l < |p| && p[l] == '/');
    }
  }

  /** The names of emoji images: the extension is taken from the URL's last
      path element only, so a dot in the host name does not count. */
  lemma ExtExamples()
    ensures Ext("https://example.com/img.png") == ".png"
    ensures Ext("https://x/1.gif") == ".gif"
    ensures Ext("https://example.com/img") == ""
    ensures Ext("archive.tar.gz") == ".gz"
  {
    var a := "https://example.com/img.png";
    assert a[26] == 'g' && a[25] == 'n' && a[24] == 'p' && a[23] == '.';
    assert ExtScan(a, 27) == ExtScan(a, 26) == ExtScan(a, 25) == ExtScan(a, 24) == a[23..];
    assert a[23..] == ".png";
    var b := "https://x/1.gif";
    assert b[14] == 'f' && b[13] == 'i' && b[12] == 'g' && b[11] == '.';
    assert ExtScan(b, 15) == ExtScan(b, 14) == ExtScan(b, 13) == ExtScan(b, 12) == b[11..];
    assert b[11..] == ".gif";
    var c := "https://example.com/img";
    assert c[22] == 'g' && c[21] == 'm' && c[20] == 'i' && c[19] == '/';
    assert ExtScan(c, 23) == ExtScan(c, 22) == ExtScan(c, 21) == ExtScan(c, 20) == "";
    var d := "archive.tar.gz";
    assert d[13] == 'z' && d[12] == 'g' && d[11] == '.';
    assert ExtScan(d, 14) == ExtScan(d, 13) == ExtScan(d, 12) == d[11..];
    assert d[11..] == ".gz";
  }

  // ---------------------------------------------------------------------------
  // path.Clean and path.Join
  // ---------------------------------------------------------------------------

  /** strings.Split(s, "/"): the pieces between slashes; never empty. */
  function Split(s: string): (pieces: seq<string>)
    ensures |pieces| > 0
  {
    if s == [] then [""]
    else if s[0] == '/' then [""] + Split(s[1..])
    else
      var rest := Split(s[1..]);
      [[s[0]] + rest[0]] + rest[1..]
  }

  /** strings.Join(segs, "/"). */
  function JoinSegments(segs: seq<string>): string {
    if |segs| == 0 then ""
    else if |segs| == 1 then segs[0]
    else segs[0] + "/" + JoinSegments(segs[1..])
  }

  /** The name-element rules of path.Clean, applied left to right to the
      pieces of a path: empty and "." elements vanish, ".." removes the
      preceding non-".." element, a ".." at the start of a rooted path
      vanishes, and a ".." at the start of a relative path is kept. */
  function Resolve(segs: seq<string>, rooted: bool, kept: seq<string>): seq<string>
    decreases |segs|
  {
    if segs == [] then kept
    else
      var s := segs[0];
      if s == "" || s == "." then Resolve(segs[1..], rooted, kept)
      else if s == ".." then
        if |kept| > 0 && kept[|kept| - 1] != ".." then Resolve(segs[1..], rooted, kept[..|kept| - 1])
        else if rooted then Resolve(segs[1..], rooted, kept)
        else Resolve(segs[1..], rooted, kept + [".."])
      else Resolve(segs[1..], rooted, kept + [s])
  }

  /** path.Clean: the shortest lexically equivalent path; "." for an empty
      result, and a rooted path keeps its leading '/'. */
  function Clean(p: string): string {
    if p == "" then "."
    else
      var rooted := p[0] == '/';
      var kept := Resolve(Split(p), rooted, []);
      if rooted then "/" + JoinSegments(kept)
      else if kept == [] then "."
      else JoinSegments(kept)
  }

  function TotalLength(elems: seq<string>): nat {
    if elems == [] then 0 else |elems[0]| + TotalLength(elems[1..])
  }

  /** The buffer loop of path.Join: elements are appended with a '/' between
      them, empty elements before the first non-empty one being skipped. */
  function JoinBuffer(elems: seq<string>, buf: string): string
    decreases |elems|
  {
    if elems == [] then buf
    else
      var e := elems[0];
      var next := if |buf| > 0 || e != "" then (if |buf| > 0 then buf + "/" else buf) + e else buf;
      JoinBuffer(elems[1..], next)
  }

  /** path.Join: "" when every element is empty, otherwise the cleaned join. */
  function Join(elems: seq<string>): string {
    if TotalLength(elems) == 0 then "" else Clean(JoinBuffer(elems, ""))
  }

  /** A path element that Clean leaves alone. */
  predicate IsPlainElement(s: string) {
    s != "" && s != "." && s != ".." && '/' !in s
  }

  predicate AllPlain(segs: seq<string>) {
    forall i :: 0 <= i < |segs| ==> IsPlainElement(segs[i])
  }

  /** The absolute path whose elements are `segs`; "/" for none. */
  function AbsolutePath(segs: seq<string>): string {
    "/" + JoinSegments(segs)
  }

  lemma SplitAfterSlash(x: string)
    ensures Split("/" + x) == [""] + Split(x)
  {
    assert ("/" + x)[1..] == x;
  }

  /** Splitting a slash-free prefix `a` glues it onto the first piece. */
  lemma {:induction false} SplitSlashFreePrefix(a: string, rest: string)
    requires '/' !in a
    ensures Split(a + rest) == [a + Split(rest)[0]] + Split(rest)[1..]
    decreases |a|
  {
    if a == [] {
      var pieces := Split(rest);
      assert a + rest == rest && a + pieces[0] == pieces[0];
      assert [pieces[0]] + pieces[1..] == pieces;
    } else {
      var s := a + rest;
      assert s[0] == a[0] && s[1..] == a[1..] + rest;
      assert '/' !in a[1..] by {
        forall c | c in a[1..] ensures c != '/' { assert c in a; }
      }
      SplitSlashFreePrefix(a[1..], rest);
      assert [a[0]] + (a[1..] + Split(rest)[0]) == a + Split(rest)[0];
    }
  }

  lemma JoinSegmentsPair(x: string, y: string)
    ensures JoinSegments([x, y]) == x + "/" + y
  {
    assert [x, y][1..] == [y];
  }

  /** JoinSegments distributes over concatenation of non-empty lists. */
  lemma {:induction false} JoinSegmentsAppend(a: seq<string>, b: seq<string>)
    requires |a| > 0 && |b| > 0
    ensures JoinSegments(a + b) == JoinSegments(a) + "/" + JoinSegments(b)
    decreases |a|
  {
    if |a| == 1 {
      assert (a + b)[1..] == b;
    } else {
      assert (a + b)[1..] == a[1..] + b;
      JoinSegmentsAppend(a[1..], b);
    }
  }

  /** Split undoes JoinSegments when no element holds a '/'. */
  lemma {:induction false} SplitJoinSegments(segs: seq<string>)
    requires |segs| > 0
    requires forall i :: 0 <= i < |segs| ==> '/' !in segs[i]
    ensures Split(JoinSegments(segs)) == segs
    decreases |segs|
  {
    if |segs| == 1 {
      SplitSlashFreePrefix(segs[0], "");
      assert segs[0] + "" == segs[0];
    } else {
      var tail := segs[1..];
      SplitJoinSegments(tail);
      assert segs[0] + "/" + JoinSegments(tail) == segs[0] + ("/" + JoinSegments(tail));
      SplitSlashFreePrefix(segs[0], "/" + JoinSegments(tail));
      SplitAfterSlash(JoinSegments(tail));
      assert Split("/" + JoinSegments(tail)) == [""] + tail;
      assert segs[0] + "" == segs[0];
      assert ([""] + tail)[1..] == tail;
      assert segs == [segs[0]] + tail;
    }
  }

  /** Plain elements pass through the Clean rules unchanged. */
  lemma {:induction false} ResolvePlain(segs: seq<string>, rooted: bool, kept: seq<string>)
    requires AllPlain(segs)
    ensures Resolve(segs, rooted, kept) == kept + segs
    decreases |segs|
  {
    if segs != [] {
      ResolvePlain(segs[1..], rooted, kept + [segs[0]]);
      assert kept + [segs[0]] + segs[1..] == kept + segs;
    }
  }

  /** The buffer of path.Join for three elements, the first non-empty. */
  lemma JoinBufferOfThree(dir: string, sub: string, name: string)
    requires dir != ""
    ensures JoinBuffer([dir, sub, name], "") == dir + "/" + sub + "/" + name
  {
    var elems := [dir, sub, name];
    assert elems[1..] == [sub, name] && elems[1..][1..] == [name] && [name][1..] == [];
    assert "" + dir == dir;
    assert JoinBuffer(elems, "") == JoinBuffer([sub, name], dir);
    assert JoinBuffer([sub, name], dir) == JoinBuffer([name], dir + "/" + sub);
    assert JoinBuffer([name], dir + "/" + sub) == JoinBuffer([], dir + "/" + sub + "/" + name);
  }

  /** A rooted path of plain elements, possibly behind extra slashes, cleans
      to the single-slash form. */
  lemma CleanRootedPlain(lead: seq<string>, segs: seq<string>, raw: string)
    requires |segs| > 0 && AllPlain(segs)
    requires forall i :: 0 <= i < |lead| ==> lead[i] == ""
    requires raw != "" && raw[0] == '/' && Split(raw) == lead + segs
    ensures Clean(raw) == AbsolutePath(segs)
  {
    SkipEmpty(lead, segs);
    ResolvePlain(segs, true, []);
    assert [] + segs == segs;
    assert Resolve(Split(raw), true, []) == segs;
  }

  lemma {:induction false} SkipEmpty(lead: seq<string>, segs: seq<string>)
    requires forall i :: 0 <= i < |lead| ==> lead[i] == ""
    ensures Resolve(lead + segs, true, []) == Resolve(segs, true, [])
    decreases |lead|
  {
    if lead == [] {
      assert lead + segs == segs;
    } else {
      assert (lead + segs)[0] == "" && (lead + segs)[1..] == lead[1..] + segs;
      SkipEmpty(lead[1..], segs);
    }
  }

  /** Joining plain elements under a clean absolute directory is plain
      concatenation with '/': Clean has nothing to remove. */
  lemma JoinPlainUnderAbsolute(dirSegs: seq<string>, sub: string, name: string)
    requires AllPlain(dirSegs) && IsPlainElement(sub) && IsPlainElement(name)
    ensures Join([AbsolutePath(dirSegs), sub, name]) == AbsolutePath(dirSegs + [sub, name])
  {
    var dir := AbsolutePath(dirSegs);
    var elems := [dir, sub, name];
    assert TotalLength(elems) > 0 by {
      assert TotalLength(elems) == |dir| + TotalLength(elems[1..]);
    }
    var raw := dir + "/" + sub + "/" + name;
    JoinBufferOfThree(dir, sub, name);
    var tail := [sub, name];
    var all := dirSegs + tail;
    assert AllPlain(all);
    assert forall i :: 0 <= i < |all| ==> '/' !in all[i];
    JoinSegmentsPair(sub, name);
    if dirSegs == [] {
      assert all == tail;
      SplitJoinSegments(tail);
      assert raw == "/" + ("/" + JoinSegments(tail));
      SplitAfterSlash("/" + JoinSegments(tail));
      SplitAfterSlash(JoinSegments(tail));
      CleanRootedPlain(["", ""], all, raw);
    } else {
      JoinSegmentsAppend(dirSegs, tail);
      assert raw == "/" + JoinSegments(all);
      SplitJoinSegments(all);
      SplitAfterSlash(JoinSegments(all));
      CleanRootedPlain([""], all, raw);
    }
  }
}
