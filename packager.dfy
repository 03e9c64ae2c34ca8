/** `downloadMedia`: from the tweet's status link, caption, date text and the
    resolved descriptors to the entries of the zip archive and its name.
    The network, the zip library and the save dialog are outside the model:
    each media fetch is given as its outcome (the bytes, or `None` when the
    fetch or `blob()` rejects), and the archive is the sequence of entries
    handed to the zip library, in order. */
module Packager {
  import opened Wrappers
  import opened JsText
  import opened Resolver

  newtype byte = x: int | 0 <= x < 256

  /** What an archive entry holds: fetched bytes, or a text. */
  datatype Content = Blob(bytes: seq<byte>) | Text(text: string)

  datatype ZipEntry = ZipEntry(name: string, content: Content)

  predicate StartsWith(s: string, prefix: string) {
    |prefix| <= |s| && s[..|prefix|] == prefix
  }

  // The status-link pattern
  // https://(x.com|twitter.com)/{handle}/status/{digits}, searched for
  // anywhere in the link.

  const XHost := "https://x.com/"
  const TwitterHost := "https://twitter.com/"
  const StatusPart := "/status/"

  /** What `[^\/]+` consumes, greedily: the longest prefix without `/`. */
  function Segment(s: string): (r: string)
    ensures |r| <= |s| && r == s[..|r|] && '/' !in r
    ensures |r| == |s| || s[|r|] == '/'
  {
    if s == [] || s[0] == '/' then [] else [s[0]] + Segment(s[1..])
  }

  /** What `\d+` consumes, greedily: the longest prefix of decimal digits. */
  function DigitRun(s: string): (r: string)
    ensures |r| <= |s| && r == s[..|r|] && IsDigits(r)
    ensures |r| == |s| || !IsDigit(s[|r|])
  {
    if s == [] || !IsDigit(s[0]) then [] else [s[0]] + DigitRun(s[1..])
  }

  /** What follows `https://x.com/` or `https://twitter.com/` at the start
      of `s`. */
  function AfterHost(s: string): Option<string> {
    if StartsWith(s, XHost) then Some(s[|XHost|..])
    else if StartsWith(s, TwitterHost) then Some(s[|TwitterHost|..])
    else None
  }

  /** `([^\/]+)\/status\/(\d+)` matched at the start of `rest`, giving the
      handle and the tweet id it captures. No backtracking changes the
      captures: a shorter handle would have to be followed by `/`, and a
      shorter id is never needed because nothing follows `\d+`. */
  function MatchPath(rest: string): Option<(string, string)> {
    var handle := Segment(rest);
    if handle == [] || !StartsWith(rest[|handle|..], StatusPart) then None
    else
      var id := DigitRun(rest[|handle| + |StatusPart|..]);
      if id == [] then None else Some((handle, id))
  }

  /** The whole pattern matched at the very start of `s`. */
  function MatchHere(s: string): Option<(string, string)> {
    var rest :- AfterHost(s);
    MatchPath(rest)
  }

  /** The leftmost match at position `i` or later. */
  function MatchFrom(s: string, i: nat): (r: Option<(string, string)>)
    requires i <= |s|
    ensures r.Some? ==> r.value.0 != [] && '/' !in r.value.0 && r.value.1 != [] && IsDigits(r.value.1)
    decreases |s| - i
  {
    match MatchHere(s[i..])
    case Some(m) => Some(m)
    case None => if i == |s| then None else MatchFrom(s, i + 1)
  }

  /** `link.match(pattern)`: the handle and the id, or `None` (`null`). */
  function ParseStatusLink(link: string): (r: Option<(string, string)>)
    ensures r.Some? ==> IsHandle(r.value.0) && IsTweetId(r.value.1)
  {
    MatchFrom(link, 0)
  }

  /** `https://x.com/{handle}/status/{id}`. */
  function CanonicalLink(handle: string, id: string): (link: string)
    ensures IsHandle(handle) && IsTweetId(id) ==> ParseStatusLink(link) == Some((handle, id))
  {
    var link := XHost + handle + StatusPart + id;
    if IsHandle(handle) && IsTweetId(id) then
      ParseStatusUrl(XHost, handle, id, "");
      assert link + "" == link;
      link
    else
      link
  }

  predicate IsHandle(handle: string) {
    handle != [] && '/' !in handle
  }

  predicate IsTweetId(id: string) {
    id != [] && IsDigits(id)
  }

  lemma {:induction false} SegmentOf(a: string, t: string)
    requires '/' !in a && StartsWith(t, "/")
    ensures Segment(a + t) == a
  {
    if a == [] {
      assert a + t == t;
    } else {
      assert (a + t)[0] == a[0];
      assert (a + t)[1..] == a[1..] + t;
      SegmentOf(a[1..], t);
    }
  }

  lemma {:induction false} DigitRunOf(a: string, t: string)
    requires IsDigits(a) && (t == [] || !IsDigit(t[0]))
    ensures DigitRun(a + t) == a
  {
    if a == [] {
      assert a + t == t;
    } else {
      assert (a + t)[0] == a[0];
      assert (a + t)[1..] == a[1..] + t;
      DigitRunOf(a[1..], t);
    }
  }

  lemma AfterHostOf(host: string, tail: string)
    requires host == XHost || host == TwitterHost
    ensures AfterHost(host + tail) == Some(tail)
  {
    var s := host + tail;
    assert s[..|host|] == host;
    if host == TwitterHost {
      assert s[8] == 't' && XHost[8] == 'x';
      assert !StartsWith(s, XHost);
    }
  }

  lemma MatchPathOf(handle: string, id: string, rest: string)
    requires IsHandle(handle) && IsTweetId(id)
    requires rest == [] || !IsDigit(rest[0])
    ensures MatchPath(handle + StatusPart + id + rest) == Some((handle, id))
  {
    var tail := handle + StatusPart + id + rest;
    assert tail == handle + (StatusPart + id + rest);
    SegmentOf(handle, StatusPart + id + rest);
    assert tail[|handle|..] == StatusPart + id + rest;
    assert tail[|handle| + |StatusPart|..] == id + rest;
    DigitRunOf(id, rest);
  }

  /** A link to a status on either host, followed by any path that does not
      continue the id's digits, yields that handle and id. */
  lemma ParseStatusUrl(host: string, handle: string, id: string, rest: string)
    requires host == XHost || host == TwitterHost
    requires IsHandle(handle) && IsTweetId(id)
    requires rest == [] || !IsDigit(rest[0])
    ensures ParseStatusLink(host + handle + StatusPart + id + rest) == Some((handle, id))
  {
    var tail := handle + StatusPart + id + rest;
    var s := host + handle + StatusPart + id + rest;
    assert s == host + tail;
    assert s[0..] == s;
    AfterHostOf(host, tail);
    MatchPathOf(handle, id, rest);
  }

  /** Normalising is stable: the canonical link of a parsed link parses back
      to the same handle and id, so normalising it again changes nothing. */
  lemma CanonicalLinkStable(link: string)
    requires ParseStatusLink(link).Some?
    ensures ParseStatusLink(CanonicalLink(ParseStatusLink(link).value.0, ParseStatusLink(link).value.1))
            == ParseStatusLink(link)
  {
    var (handle, id) := ParseStatusLink(link).value;
    ParseStatusUrl(XHost, handle, id, "");
    assert CanonicalLink(handle, id) == XHost + handle + StatusPart + id + "";
  }

  // File naming.

  predicate IsMp4Descriptor(d: Descriptor) {
    d.Motion? && d.contentType == Some(Mp4)
  }

  function Extension(d: Descriptor): (e: string)
    ensures e == "mp4" <==> IsMp4Descriptor(d)
    ensures e == "jpg" <==> !IsMp4Descriptor(d)
  {
    if IsMp4Descriptor(d) then "mp4" else "jpg"
  }

  /** The descriptor in a template literal or passed to `fetch`: a photo is
      its URL string; any other descriptor object renders as
      `[object Object]`. */
  function Stringify(d: Descriptor): string {
    match d
    case Photo(u) => u
    case Motion(_, _, _) => "[object Object]"
  }

  /** What is fetched for a descriptor and written into the metadata:
      `media.url` for an mp4 descriptor, the descriptor itself otherwise. */
  function SourceUrl(d: Descriptor): (u: string)
    ensures d.Photo? ==> u == d.photoUrl
    ensures IsMp4Descriptor(d) ==> u == Show(d.url)
    ensures d.Motion? && !IsMp4Descriptor(d) ==> u == "[object Object]"
  {
    if IsMp4Descriptor(d) then Show(d.url) else Stringify(d)
  }

  /** `{handle}_{id}_{n}.{ext}`. */
  function MediaFileName(handle: string, id: string, n: nat, d: Descriptor): string {
    handle + "_" + id + "_" + NatToString(n) + "." + Extension(d)
  }

  const MetadataName := "metadata.txt"

  function ShortcutName(handle: string, id: string): string {
    handle + "_" + id + ".url"
  }

  function ShortcutText(link: string): string {
    "[InternetShortcut]\nURL=" + link
  }

  function ZipName(handle: string, id: string): string {
    handle + "_" + id + ".zip"
  }

  /** JSZip's `file(name, content)`: an entry under a new name is appended; an
      entry under an existing name has its content replaced where it stands. */
  function PutFile(files: seq<ZipEntry>, name: string, content: Content): (r: seq<ZipEntry>)
    ensures (forall k :: 0 <= k < |files| ==> files[k].name != name) ==> r == files + [ZipEntry(name, content)]
  {
    if files == [] then [ZipEntry(name, content)]
    else if files[0].name == name then [ZipEntry(name, content)] + files[1..]
    else [files[0]] + PutFile(files[1..], name, content)
  }

  /** Putting an existing name replaces that entry and leaves the others. */
  lemma {:induction false} PutFileReplaces(files: seq<ZipEntry>, k: nat, content: Content)
    requires k < |files|
    requires forall j :: 0 <= j < k ==> files[j].name != files[k].name
    ensures PutFile(files, files[k].name, content) == files[k := ZipEntry(files[k].name, content)]
  {
    if k > 0 {
      forall j | 0 <= j < k - 1 ensures files[1..][j].name != files[1..][k - 1].name {
        assert files[1..][j] == files[j + 1];
      }
      PutFileReplaces(files[1..], k - 1, content);
    }
  }

  /** Two media file names with different numbers differ. */
  lemma MediaNamesDistinct(handle: string, id: string, m: nat, n: nat, d: Descriptor, e: Descriptor)
    requires m != n
    ensures MediaFileName(handle, id, m, d) != MediaFileName(handle, id, n, e)
  {
    var p := handle + "_" + id + "_";
    var s, t := NatToString(m), NatToString(n);
    NatToStringInjective(m, n);
    var a, b := MediaFileName(handle, id, m, d), MediaFileName(handle, id, n, e);
    assert a == p + s + ("." + Extension(d));
    assert b == p + t + ("." + Extension(e));
    if |s| == |t| {
      assert a[|p|..|p| + |s|] == s;
      assert b[|p|..|p| + |t|] == t;
    } else {
      assert |a| != |b|;
    }
  }

  /** The last four characters of a name: its dot and extension. */
  function Ending(name: string): string
    requires |name| >= 4
  {
    name[|name| - 4..]
  }

  lemma MediaFileNameEnding(handle: string, id: string, n: nat, d: Descriptor)
    ensures |MediaFileName(handle, id, n, d)| >= 4
    ensures Ending(MediaFileName(handle, id, n, d)) == "." + Extension(d)
  {
    var p := handle + "_" + id + "_" + NatToString(n);
    assert MediaFileName(handle, id, n, d) == p + ("." + Extension(d));
  }

  lemma ShortcutNameEnding(handle: string, id: string)
    ensures |ShortcutName(handle, id)| >= 4 && Ending(ShortcutName(handle, id)) == ".url"
  {
    assert ShortcutName(handle, id) == (handle + "_" + id) + ".url";
  }

  // The archive `downloadMedia` builds, stated without its loop.

  /** A media item whose fetch succeeded, with the bytes fetched. */
  datatype Archived = Archived(descriptor: Descriptor, bytes: seq<byte>)

  /** The items whose fetch succeeded, in their order. */
  function Survivors(media: seq<Descriptor>, fetched: seq<Option<seq<byte>>>): (sv: seq<Archived>)
    requires |fetched| == |media|
    ensures |sv| <= |media|
  {
    if media == [] then []
    else
      var n := |media| - 1;
      Survivors(media[..n], fetched[..n])
        + (if fetched[n].Some? then [Archived(media[n], fetched[n].value)] else [])
  }

  /** The media entries: the `k`-th surviving item is number `k`. */
  function MediaFiles(handle: string, id: string, sv: seq<Archived>): (files: seq<ZipEntry>)
    ensures |files| == |sv|
  {
    seq(|sv|, k requires 0 <= k < |sv| =>
      ZipEntry(MediaFileName(handle, id, k + 1, sv[k].descriptor), Blob(sv[k].bytes)))
  }

  /** Each line followed by a line feed. */
  function Lines(ls: seq<string>): string {
    if ls == [] then "" else ls[0] + "\n" + Lines(ls[1..])
  }

  /** The lines the metadata starts with: the link, the caption when it is
      not empty, `@handle`, and the date. */
  function HeadLines(link: string, comment: string, handle: string, date: string): seq<string> {
    [link] + (if comment != "" then [comment] else []) + ["@" + handle, date]
  }

  /** One line per archived item: its source URL. */
  function SourceUrls(sv: seq<Archived>): (urls: seq<string>)
    ensures |urls| == |sv|
  {
    seq(|sv|, k requires 0 <= k < |sv| => SourceUrl(sv[k].descriptor))
  }

  function MetadataLines(link: string, comment: string, handle: string, date: string, sv: seq<Archived>): seq<string> {
    HeadLines(link, comment, handle, date) + SourceUrls(sv)
  }

  /** The `metadata.txt` text: the lines, trimmed. */
  function Metadata(link: string, comment: string, handle: string, date: string, sv: seq<Archived>): (m: string)
    ensures m == [] || (!IsSpace(m[0]) && !IsSpace(m[|m| - 1]))
    ensures link != [] && !IsSpace(link[0]) && !IsSpace(link[|link| - 1]) ==>
      |m| >= |link| && m[..|link|] == link
  {
    var ls := MetadataLines(link, comment, handle, date, sv);
    var text := Lines(ls);
    assert text == link + ("\n" + Lines(ls[1..]));
    assert text[..|link|] == link;
    if link != [] && !IsSpace(link[0]) && !IsSpace(link[|link| - 1]) then
      TrimKeepsVisiblePrefix(text, link);
      Trim(text)
    else
      Trim(text)
  }

  /** The entries of the archive for a tweet: the media files, then
      `metadata.txt`, then the `.url` shortcut. */
  function Manifest(handle: string, id: string, comment: string, date: string,
                    media: seq<Descriptor>, fetched: seq<Option<seq<byte>>>): (files: seq<ZipEntry>)
    requires |fetched| == |media|
    ensures |files| == |Survivors(media, fetched)| + 2
    ensures forall k :: 0 <= k < |Survivors(media, fetched)| ==>
      files[k].name == MediaFileName(handle, id, k + 1, Survivors(media, fetched)[k].descriptor)
      && files[k].content == Blob(Survivors(media, fetched)[k].bytes)
    ensures files[|files| - 2].name == MetadataName && files[|files| - 2].content.Text?
    ensures files[|files| - 1] == ZipEntry(ShortcutName(handle, id), Text(ShortcutText(CanonicalLink(handle, id))))
  {
    var link := CanonicalLink(handle, id);
    var sv := Survivors(media, fetched);
    MediaFiles(handle, id, sv)
      + [ZipEntry(MetadataName, Text(Metadata(link, comment, handle, date, sv))),
         ZipEntry(ShortcutName(handle, id), Text(ShortcutText(link)))]
  }

  lemma {:induction false} LinesAppend(a: seq<string>, b: seq<string>)
    ensures Lines(a + b) == Lines(a) + Lines(b)
  {
    if a == [] {
      assert a + b == b;
    } else {
      assert (a + b)[0] == a[0];
      assert (a + b)[1..] == a[1..] + b;
      LinesAppend(a[1..], b);
    }
  }

  lemma LinesSnoc(a: seq<string>, x: string)
    ensures Lines(a + [x]) == Lines(a) + x + "\n"
  {
    LinesAppend(a, [x]);
    assert Lines([x]) == x + "\n" + Lines([]);
  }

  lemma SurvivorsSnoc(media: seq<Descriptor>, fetched: seq<Option<seq<byte>>>, i: nat)
    requires |fetched| == |media| && i < |media|
    ensures Survivors(media[..i + 1], fetched[..i + 1])
      == Survivors(media[..i], fetched[..i])
         + (if fetched[i].Some? then [Archived(media[i], fetched[i].value)] else [])
  {
    assert media[..i + 1][..i] == media[..i];
    assert fetched[..i + 1][..i] == fetched[..i];
  }

  lemma MediaFilesSnoc(handle: string, id: string, sv: seq<Archived>, a: Archived)
    ensures MediaFiles(handle, id, sv + [a])
      == MediaFiles(handle, id, sv) + [ZipEntry(MediaFileName(handle, id, |sv| + 1, a.descriptor), Blob(a.bytes))]
  {
  }

  lemma SourceUrlsSnoc(sv: seq<Archived>, a: Archived)
    ensures SourceUrls(sv + [a]) == SourceUrls(sv) + [SourceUrl(a.descriptor)]
  {
  }

  /** The next media name is not among the names already in the archive. */
  lemma NextMediaNameFresh(handle: string, id: string, sv: seq<Archived>, d: Descriptor)
    ensures forall k :: 0 <= k < |sv| ==>
      MediaFiles(handle, id, sv)[k].name != MediaFileName(handle, id, |sv| + 1, d)
  {
    forall k | 0 <= k < |sv|
      ensures MediaFiles(handle, id, sv)[k].name != MediaFileName(handle, id, |sv| + 1, d)
    {
      MediaNamesDistinct(handle, id, k + 1, |sv| + 1, sv[k].descriptor, d);
    }
  }

  /** `metadata.txt` and the shortcut are named unlike any media file. */
  lemma FixedNamesFresh(handle: string, id: string, sv: seq<Archived>)
    ensures forall k :: 0 <= k < |sv| ==> MediaFiles(handle, id, sv)[k].name != MetadataName
    ensures forall k :: 0 <= k < |sv| ==> MediaFiles(handle, id, sv)[k].name != ShortcutName(handle, id)
    ensures MetadataName != ShortcutName(handle, id)
  {
    ShortcutNameEnding(handle, id);
    assert Ending(MetadataName) == ".txt";
    assert Ending(ShortcutName(handle, id))[1] == 'u';
    forall k | 0 <= k < |sv|
      ensures MediaFiles(handle, id, sv)[k].name != MetadataName
      ensures MediaFiles(handle, id, sv)[k].name != ShortcutName(handle, id)
    {
      MediaFileNameEnding(handle, id, k + 1, sv[k].descriptor);
      var e := "." + Extension(sv[k].descriptor);
      assert e[1] == 'm' || e[1] == 'j';
    }
  }

  /** The metadata head as `downloadMedia` writes it. */
  lemma HeadLinesText(link: string, comment: string, handle: string, date: string)
    ensures comment != "" ==>
      Lines(HeadLines(link, comment, handle, date)) == link + "\n" + comment + "\n" + "@" + handle + "\n" + date + "\n"
    ensures comment == "" ==>
      Lines(HeadLines(link, comment, handle, date)) == link + "\n" + "@" + handle + "\n" + date + "\n"
  {
    var opt := if comment != "" then [comment] else [];
    LinesAppend([link] + opt, ["@" + handle, date]);
    LinesAppend([link], opt);
    assert Lines([link]) == link + "\n" + Lines([]);
    assert opt != [] ==> Lines(opt) == comment + "\n" + Lines([]);
    assert ["@" + handle, date][1..] == [date];
    assert Lines([date]) == date + "\n" + Lines([]);
  }

  /** Adding `metadata.txt` and then the shortcut to the media files completes
      the manifest. */
  lemma ManifestClose(handle: string, id: string, comment: string, date: string,
                      media: seq<Descriptor>, fetched: seq<Option<seq<byte>>>)
    requires |fetched| == |media|
    ensures
      var link := CanonicalLink(handle, id);
      var sv := Survivors(media, fetched);
      var text := Trim(Lines(HeadLines(link, comment, handle, date) + SourceUrls(sv)));
      PutFile(PutFile(MediaFiles(handle, id, sv), MetadataName, Text(text)),
              ShortcutName(handle, id), Text(ShortcutText(link)))
      == Manifest(handle, id, comment, date, media, fetched)
  {
    var link := CanonicalLink(handle, id);
    var sv := Survivors(media, fetched);
    var text := Trim(Lines(HeadLines(link, comment, handle, date) + SourceUrls(sv)));
    FixedNamesFresh(handle, id, sv);
    PutTwoFresh(MediaFiles(handle, id, sv), MetadataName, Text(text), ShortcutName(handle, id), Text(ShortcutText(link)));
  }

  /** Two `zip.file` calls under names not yet in the archive, and unlike each
      other, append two entries in call order. */
  lemma PutTwoFresh(files: seq<ZipEntry>, first: string, c1: Content, second: string, c2: Content)
    requires forall k :: 0 <= k < |files| ==> files[k].name != first && files[k].name != second
    requires first != second
    ensures PutFile(PutFile(files, first, c1), second, c2) == files + [ZipEntry(first, c1), ZipEntry(second, c2)]
  {
    var withFirst := PutFile(files, first, c1);
    assert withFirst == files + [ZipEntry(first, c1)];
    forall k | 0 <= k < |withFirst| ensures withFirst[k].name != second {
      if k < |files| {
        assert withFirst[k] == files[k];
      }
    }
  }

  /** The file name `downloadMedia` spells out for an mp4 descriptor, and for
      any other one. */
  lemma MediaFileNameSpelled(handle: string, id: string, n: nat, d: Descriptor)
    ensures IsMp4Descriptor(d) ==>
      MediaFileName(handle, id, n, d) == handle + "_" + id + "_" + NatToString(n) + ".mp4"
    ensures !IsMp4Descriptor(d) ==>
      MediaFileName(handle, id, n, d) == handle + "_" + id + "_" + NatToString(n) + ".jpg"
  {
    var p := handle + "_" + id + "_" + NatToString(n);
    assert "." + "mp4" == ".mp4" && "." + "jpg" == ".jpg";
    assert p + "." + Extension(d) == p + ("." + Extension(d));
  }

  /** The URLs requested so far, one more item on. */
  lemma RequestedSnoc(media: seq<Descriptor>, i: nat)
    requires i < |media|
    ensures seq(i, j requires 0 <= j < i => SourceUrl(media[j])) + [SourceUrl(media[i])]
         == seq(i + 1, j requires 0 <= j < i + 1 => SourceUrl(media[j]))
  {
  }

  /** One turn of the loop: a failed fetch leaves the archive and the
      metadata as they were; a successful one appends the next numbered file
      and one metadata line. */
  lemma ArchiveStep(handle: string, id: string, head: seq<string>,
                    media: seq<Descriptor>, fetched: seq<Option<seq<byte>>>, i: nat)
    requires |fetched| == |media| && i < |media|
    ensures fetched[i].None? ==>
      Survivors(media[..i + 1], fetched[..i + 1]) == Survivors(media[..i], fetched[..i])
    ensures fetched[i].Some? ==>
      var sv := Survivors(media[..i], fetched[..i]);
      var next := Survivors(media[..i + 1], fetched[..i + 1]);
      |next| == |sv| + 1
      && MediaFiles(handle, id, next)
         == PutFile(MediaFiles(handle, id, sv), MediaFileName(handle, id, |sv| + 1, media[i]), Blob(fetched[i].value))
      && Lines(head + SourceUrls(next)) == Lines(head + SourceUrls(sv)) + SourceUrl(media[i]) + "\n"
  {
    SurvivorsSnoc(media, fetched, i);
    if fetched[i].Some? {
      var sv := Survivors(media[..i], fetched[..i]);
      var a := Archived(media[i], fetched[i].value);
      NextMediaNameFresh(handle, id, sv, media[i]);
      MediaFilesSnoc(handle, id, sv, a);
      SourceUrlsSnoc(sv, a);
      assert head + SourceUrls(sv + [a]) == (head + SourceUrls(sv)) + [SourceUrl(media[i])];
      LinesSnoc(head + SourceUrls(sv), SourceUrl(media[i]));
    }
  }

  /** `downloadMedia(tweetElement, mediaData)`, with the status link, the
      caption (`''` when there is none) and the date text read from the tweet
      element, and `fetched[i]` the outcome of fetching `media[i]`. Returns
      the entries given to the zip library, the URLs fetched in order, and
      the name the archive is saved under. */
  method DownloadMedia(link: string, comment: string, date: string,
                       media: seq<Descriptor>, fetched: seq<Option<seq<byte>>>)
    returns (files: seq<ZipEntry>, requested: seq<string>, zipName: string)
    requires ParseStatusLink(link).Some?
    requires |fetched| == |media|
    ensures files == Manifest(ParseStatusLink(link).value.0, ParseStatusLink(link).value.1, comment, date, media, fetched)
    ensures requested == seq(|media|, i requires 0 <= i < |media| => SourceUrl(media[i]))
    ensures zipName == ZipName(ParseStatusLink(link).value.0, ParseStatusLink(link).value.1)
  {
    var (handle, id) := ParseStatusLink(link).value;
    var tweetLink := CanonicalLink(handle, id);

    var metadata := tweetLink + "\n";
    if comment != "" {
      metadata := metadata + comment + "\n";
    }
    metadata := metadata + "@" + handle + "\n" + date + "\n";
    ghost var head := HeadLines(tweetLink, comment, handle, date);
    HeadLinesText(tweetLink, comment, handle, date);
    assert SourceUrls([]) == [] && head + [] == head;
    assert metadata == Lines(head + SourceUrls([]));

    files := [];
    requested := [];
    var mediaIndex := 1;
    for i := 0 to |media|
      invariant mediaIndex == |Survivors(media[..i], fetched[..i])| + 1
      invariant files == MediaFiles(handle, id, Survivors(media[..i], fetched[..i]))
      invariant metadata == Lines(head + SourceUrls(Survivors(media[..i], fetched[..i])))
      invariant requested == seq(i, j requires 0 <= j < i => SourceUrl(media[j]))
    {
      ArchiveStep(handle, id, head, media, fetched, i);
      RequestedSnoc(media, i);
      var m := media[i];
      MediaFileNameSpelled(handle, id, mediaIndex, m);
      if m.Motion? && m.contentType == Some(Mp4) {
        requested := requested + [Show(m.url)];
        if fetched[i].Some? {
          var name := handle + "_" + id + "_" + NatToString(mediaIndex) + ".mp4";
          files := PutFile(files, name, Blob(fetched[i].value));
          metadata := metadata + Show(m.url) + "\n";
          mediaIndex := mediaIndex + 1;
        }
      } else {
        requested := requested + [Stringify(m)];
        if fetched[i].Some? {
          var name := handle + "_" + id + "_" + NatToString(mediaIndex) + ".jpg";
          files := PutFile(files, name, Blob(fetched[i].value));
          metadata := metadata + Stringify(m) + "\n";
          mediaIndex := mediaIndex + 1;
        }
      }
    }
    assert media[..|media|] == media && fetched[..|fetched|] == fetched;
    ghost var sv := Survivors(media, fetched);

    ManifestClose(handle, id, comment, date, media, fetched);
    files := PutFile(files, MetadataName, Text(Trim(metadata)));
    files := PutFile(files, ShortcutName(handle, id), Text(ShortcutText(tweetLink)));
    zipName := handle + "_" + id + ".zip";
  }
}

/** Properties of the archive `downloadMedia` produces, stated on its
    specification. */
module ArchiveFacts {
  import opened Wrappers
  import opened JsText
  import opened Resolver
  import opened Packager

  /** Collecting the survivors of two runs of items one after the other. */
  lemma {:induction false} SurvivorsAppend(a: seq<Descriptor>, fa: seq<Option<seq<byte>>>,
                                           b: seq<Descriptor>, fb: seq<Option<seq<byte>>>)
    requires |fa| == |a| && |fb| == |b|
    ensures Survivors(a + b, fa + fb) == Survivors(a, fa) + Survivors(b, fb)
    decreases |b|
  {
    if b == [] {
      assert a + b == a && fa + fb == fa;
    } else {
      var n := |b| - 1;
      assert (a + b)[..|a| + n] == a + b[..n];
      assert (fa + fb)[..|a| + n] == fa + fb[..n];
      assert (a + b)[|a| + n] == b[n] && (fa + fb)[|a| + n] == fb[n];
      SurvivorsAppend(a, fa, b[..n], fb[..n]);
    }
  }

  /** A single item whose fetch failed leaves nothing to archive. */
  lemma SurvivorsOfFailed(d: Descriptor, f: Option<seq<byte>>)
    requires f.None?
    ensures Survivors([d], [f]) == []
  {
    assert [d][..0] == [] && [f][..0] == [];
  }

  lemma SurvivorsSkipFailed(media: seq<Descriptor>, fetched: seq<Option<seq<byte>>>, i: nat)
    requires |fetched| == |media| && i < |media| && fetched[i].None?
    ensures Survivors(media[..i] + media[i + 1..], fetched[..i] + fetched[i + 1..]) == Survivors(media, fetched)
  {
    var a, fa := media[..i], fetched[..i];
    var b, fb := media[i + 1..], fetched[i + 1..];
    var d, f := [media[i]], [fetched[i]];
    assert media == (a + d) + b;
    assert fetched == (fa + f) + fb;
    SurvivorsAppend(a + d, fa + f, b, fb);
    SurvivorsAppend(a, fa, d, f);
    SurvivorsAppend(a, fa, b, fb);
    SurvivorsOfFailed(media[i], fetched[i]);
    assert Survivors(a, fa) + [] == Survivors(a, fa);
  }

  /** An item whose fetch fails leaves no trace in the archive: the manifest
      is the one built without that item. */
  lemma FailedFetchAddsNothing(handle: string, id: string, comment: string, date: string,
                               media: seq<Descriptor>, fetched: seq<Option<seq<byte>>>, i: nat)
    requires |fetched| == |media| && i < |media| && fetched[i].None?
    ensures Manifest(handle, id, comment, date, media[..i] + media[i + 1..], fetched[..i] + fetched[i + 1..])
         == Manifest(handle, id, comment, date, media, fetched)
  {
    SurvivorsSkipFailed(media, fetched, i);
  }

  /** When every fetch succeeds, item `k` of the descriptor list is file
      number `k + 1`. */
  lemma {:induction false} AllFetchedNumberedByPosition(handle: string, id: string,
                                                        media: seq<Descriptor>, fetched: seq<Option<seq<byte>>>)
    requires |fetched| == |media|
    requires forall i :: 0 <= i < |fetched| ==> fetched[i].Some?
    ensures |Survivors(media, fetched)| == |media|
    ensures forall k :: 0 <= k < |media| ==>
      MediaFiles(handle, id, Survivors(media, fetched))[k]
      == ZipEntry(MediaFileName(handle, id, k + 1, media[k]), Blob(fetched[k].value))
    decreases |media|
  {
    if media != [] {
      var n := |media| - 1;
      AllFetchedNumberedByPosition(handle, id, media[..n], fetched[..n]);
      var sv := Survivors(media[..n], fetched[..n]);
      assert Survivors(media, fetched) == sv + [Archived(media[n], fetched[n].value)];
      forall k | 0 <= k < n
        ensures MediaFiles(handle, id, Survivors(media, fetched))[k]
                == ZipEntry(MediaFileName(handle, id, k + 1, media[k]), Blob(fetched[k].value))
      {
        assert media[..n][k] == media[k] && fetched[..n][k] == fetched[k];
        assert MediaFiles(handle, id, sv)[k]
               == ZipEntry(MediaFileName(handle, id, k + 1, media[..n][k]), Blob(fetched[..n][k].value));
      }
    }
  }

  /** When every fetch fails, the archive holds only `metadata.txt` and the
      shortcut. */
  lemma {:induction false} NothingFetched(handle: string, id: string, comment: string, date: string,
                                          media: seq<Descriptor>, fetched: seq<Option<seq<byte>>>)
    requires |fetched| == |media|
    requires forall i :: 0 <= i < |fetched| ==> fetched[i].None?
    ensures Survivors(media, fetched) == []
    ensures |Manifest(handle, id, comment, date, media, fetched)| == 2
    ensures Manifest(handle, id, comment, date, media, fetched)[0].name == MetadataName
    ensures Manifest(handle, id, comment, date, media, fetched)[1]
         == ZipEntry(ShortcutName(handle, id), Text(ShortcutText(CanonicalLink(handle, id))))
    decreases |media|
  {
    if media != [] {
      var n := |media| - 1;
      NothingFetched(handle, id, comment, date, media[..n], fetched[..n]);
    }
  }

  /** The entry names of an archive are pairwise distinct, so no entry
      overwrites another; there is one media entry per successful fetch,
      followed by `metadata.txt` and the shortcut. */
  lemma ManifestNamesDistinct(handle: string, id: string, comment: string, date: string,
                              media: seq<Descriptor>, fetched: seq<Option<seq<byte>>>)
    requires |fetched| == |media|
    ensures |Manifest(handle, id, comment, date, media, fetched)| == |Survivors(media, fetched)| + 2
    ensures forall j, k :: 0 <= j < k < |Manifest(handle, id, comment, date, media, fetched)| ==>
      Manifest(handle, id, comment, date, media, fetched)[j].name
      != Manifest(handle, id, comment, date, media, fetched)[k].name
  {
    var files := Manifest(handle, id, comment, date, media, fetched);
    LaidOutNamesDistinct(handle, id, Survivors(media, fetched), files);
  }

  /** Entries laid out as an archive is — the numbered media files, then
      `metadata.txt`, then the shortcut — have pairwise distinct names. */
  lemma LaidOutNamesDistinct(handle: string, id: string, sv: seq<Archived>, files: seq<ZipEntry>)
    requires |files| == |sv| + 2
    requires forall k :: 0 <= k < |sv| ==> files[k].name == MediaFileName(handle, id, k + 1, sv[k].descriptor)
    requires files[|sv|].name == MetadataName && files[|sv| + 1].name == ShortcutName(handle, id)
    ensures forall j, k :: 0 <= j < k < |files| ==> files[j].name != files[k].name
  {
    var n := |sv|;
    MediaNamesAgainstFixed(handle, id, sv);
    forall j, k | 0 <= j < k < |files| ensures files[j].name != files[k].name {
      if k < n {
        MediaNamesDistinct(handle, id, j + 1, k + 1, sv[j].descriptor, sv[k].descriptor);
      }
    }
  }

  /** No media file is named `metadata.txt` or like the shortcut, and those
      two names differ. */
  lemma MediaNamesAgainstFixed(handle: string, id: string, sv: seq<Archived>)
    ensures forall k :: 0 <= k < |sv| ==> MediaFileName(handle, id, k + 1, sv[k].descriptor) != MetadataName
    ensures forall k :: 0 <= k < |sv| ==> MediaFileName(handle, id, k + 1, sv[k].descriptor) != ShortcutName(handle, id)
    ensures MetadataName != ShortcutName(handle, id)
  {
    FixedNamesFresh(handle, id, sv);
    forall k | 0 <= k < |sv| ensures MediaFiles(handle, id, sv)[k].name == MediaFileName(handle, id, k + 1, sv[k].descriptor) {
    }
  }

  /** A media file is named `.mp4` exactly when its descriptor is an mp4
      video; every other file, photo or not, is named `.jpg`. */
  lemma Mp4ExtensionIff(handle: string, id: string, n: nat, d: Descriptor)
    ensures |MediaFileName(handle, id, n, d)| >= 4
    ensures Ending(MediaFileName(handle, id, n, d)) == ".mp4" <==> IsMp4Descriptor(d)
    ensures Ending(MediaFileName(handle, id, n, d)) == ".jpg" <==> !IsMp4Descriptor(d)
  {
    MediaFileNameEnding(handle, id, n, d);
    assert ".mp4"[1] != ".jpg"[1];
  }

  /** `Lines` is the join by line feeds with one final line feed. */
  lemma {:induction false} LinesJoin(ls: seq<string>)
    requires |ls| >= 1
    ensures Lines(ls) == Join(ls, '\n') + "\n"
  {
    if |ls| == 1 {
      assert Lines(ls) == ls[0] + "\n" + Lines([]);
    } else {
      LinesJoin(ls[1..]);
      assert Lines(ls) == ls[0] + "\n" + (Join(ls[1..], '\n') + "\n");
      assert Join(ls, '\n') == ls[0] + ['\n'] + Join(ls[1..], '\n');
    }
  }

  /** The last character of a join is the last character of its last piece. */
  lemma {:induction false} JoinLast(ls: seq<string>, sep: char)
    requires |ls| >= 1 && ls[|ls| - 1] != []
    ensures |Join(ls, sep)| >= 1 && Join(ls, sep)[|Join(ls, sep)| - 1] == ls[|ls| - 1][|ls[|ls| - 1]| - 1]
  {
    if |ls| > 1 {
      JoinLast(ls[1..], sep);
      assert ls[1..][|ls| - 2] == ls[|ls| - 1];
    }
  }

  /** `metadata.txt` holds its lines one per row: trimming removes only the
      final line feed when the last line ends in a visible character, and
      splitting the text at line feeds gives back the lines when none of them
      contains one. */
  lemma MetadataRows(handle: string, id: string, comment: string, date: string, sv: seq<Archived>)
    requires
      var ls := MetadataLines(CanonicalLink(handle, id), comment, handle, date, sv);
      ls[|ls| - 1] != [] && !IsSpace(ls[|ls| - 1][|ls[|ls| - 1]| - 1])
    ensures
      var ls := MetadataLines(CanonicalLink(handle, id), comment, handle, date, sv);
      Metadata(CanonicalLink(handle, id), comment, handle, date, sv) == Join(ls, '\n')
      && ((forall i :: 0 <= i < |ls| ==> '\n' !in ls[i]) ==>
            Split(Metadata(CanonicalLink(handle, id), comment, handle, date, sv), '\n') == ls)
  {
    var link := CanonicalLink(handle, id);
    var ls := MetadataLines(link, comment, handle, date, sv);
    LinesJoin(ls);
    JoinLast(ls, '\n');
    var j := Join(ls, '\n');
    assert ls[0] == link;
    assert link[0] == 'h';
    assert |ls| > 1;
    assert j == ls[0] + ['\n'] + Join(ls[1..], '\n');
    assert j[0] == 'h';
    TrimOneTrailing(j, '\n');
    assert Lines(ls) == j + ['\n'];
    if forall i :: 0 <= i < |ls| ==> '\n' !in ls[i] {
      SplitJoin(ls, '\n');
    }
  }

  /** Of three photos whose second fetch fails, the first and the third are
      archived, in that order. */
  lemma SecondOfThreeSurvivors(a: string, b: string, c: string, x: seq<byte>, z: seq<byte>)
    ensures Survivors([Photo(a), Photo(b), Photo(c)], [Some(x), None, Some(z)])
         == [Archived(Photo(a), x), Archived(Photo(c), z)]
  {
    var media := [Photo(a), Photo(b), Photo(c)];
    var fetched: seq<Option<seq<byte>>> := [Some(x), None, Some(z)];
    assert [Photo(a)][..0] == [] && [Some(x)][..0] == [];
    assert Survivors([Photo(a)], [Some(x)]) == [Archived(Photo(a), x)];
    assert media[..2][..1] == [Photo(a)] && fetched[..2][..1] == [Some(x)];
    assert Survivors(media[..2], fetched[..2]) == [Archived(Photo(a), x)];
  }

  /** When the second of three photos fails to download, the other two are
      files 1 and 2. */
  lemma SecondOfThreeFails(handle: string, id: string, a: string, b: string, c: string,
                           x: seq<byte>, z: seq<byte>)
    ensures
      var files := MediaFiles(handle, id, Survivors([Photo(a), Photo(b), Photo(c)], [Some(x), None, Some(z)]));
      files == [ZipEntry(handle + "_" + id + "_1.jpg", Blob(x)), ZipEntry(handle + "_" + id + "_2.jpg", Blob(z))]
  {
    SecondOfThreeSurvivors(a, b, c, x, z);
    MediaFileNameSpelled(handle, id, 1, Photo(a));
    MediaFileNameSpelled(handle, id, 2, Photo(c));
    assert NatToString(1) == "1" && NatToString(2) == "2";
    assert handle + "_" + id + "_" + "1" + ".jpg" == handle + "_" + id + "_1.jpg";
    assert handle + "_" + id + "_" + "2" + ".jpg" == handle + "_" + id + "_2.jpg";
  }
}
