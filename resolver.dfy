/** The response side of `fetchTweetData`: from the HTTP outcome and the
    parsed TweetDetail body to the list of media descriptors the downloader
    archives. Every property of the JSON graph is optional (`?.` in the
    source), and anything the code would throw on is caught and turned into
    an empty result. */
module Resolver {
  import opened Wrappers
  import opened JsText
  import opened JsArray

  const Mp4 := "video/mp4"

  /** Appended to a photo URL to ask for the original-size image. */
  const OrigSuffix := "?name=orig"

  // The part of the TweetDetail response the resolver reads. Each `Option`
  // is a property that may be absent.

  datatype Variant = Variant(contentType: Option<string>, url: Option<string>, bitrate: Option<int>)
  datatype VideoInfo = VideoInfo(variants: Option<seq<Variant>>)
  datatype MediaItem = MediaItem(kind: Option<string>, mediaUrlHttps: Option<string>, videoInfo: Option<VideoInfo>)
  datatype Entities = Entities(media: Option<seq<MediaItem>>)
  datatype Legacy = Legacy(entities: Option<Entities>)
  datatype TweetResult = TweetResult(legacy: Option<Legacy>)
  datatype TweetResults = TweetResults(result: Option<TweetResult>)
  datatype ItemContent = ItemContent(tweetResults: Option<TweetResults>)
  datatype EntryContent = EntryContent(itemContent: Option<ItemContent>)
  datatype Entry = Entry(entryId: Option<string>, content: Option<EntryContent>)
  datatype Instruction = Instruction(entries: Option<seq<Entry>>)
  datatype Conversation = Conversation(instructions: Option<seq<Instruction>>)
  datatype Payload = Payload(conversation: Option<Conversation>)
  datatype Body = Body(data: Option<Payload>)

  /** The HTTP outcome: `response.ok`, and the body `response.json()` parsed
      to (`None` when parsing throws). */
  datatype Response = Response(ok: bool, body: Option<Body>)

  /** What the resolver hands to the packager: a photo URL string, or a copy
      of the chosen variant's `url`, `bitrate` and `content_type` (each of
      which may be absent). */
  datatype Descriptor =
    | Photo(photoUrl: string)
    | Motion(url: Option<string>, bitrate: Option<int>, contentType: Option<string>)

  /** What the `flatMap` callback does with one media item: contribute no
      descriptor, contribute one, or throw. */
  datatype ItemOutcome = Skip | Yield(descriptor: Descriptor) | Throw

  /** The synthetic id of the timeline entry that holds the tweet. */
  function EntryId(tweetId: string): string {
    "tweet-" + tweetId
  }

  predicate HasEntryId(id: string, e: Entry) {
    e.entryId == Some(id)
  }

  /** `data?.threaded_conversation_with_injections_v2?.instructions?.[0]?.entries`. */
  function FirstEntries(body: Body): Option<seq<Entry>> {
    var data :- body.data;
    var conversation :- data.conversation;
    var instructions :- conversation.instructions;
    if |instructions| == 0 then None else instructions[0].entries
  }

  /** `tweetEntry?.content?.itemContent?.tweet_results?.result`. */
  function ResultOf(entry: Entry): Option<TweetResult> {
    var content :- entry.content;
    var item :- content.itemContent;
    var results :- item.tweetResults;
    results.result
  }

  /** The tweet result of the first entry whose id is `tweet-{tweetId}`. */
  function TweetResultFor(body: Body, tweetId: string): (r: Option<TweetResult>)
    ensures r.Some? ==> FirstEntries(body).Some?
    ensures r.Some? ==>
      exists k :: 0 <= k < |FirstEntries(body).value|
        && FirstEntries(body).value[k].entryId == Some(EntryId(tweetId))
        && ResultOf(FirstEntries(body).value[k]) == r
  {
    var entries :- FirstEntries(body);
    var entry :- Find(entries, e => HasEntryId(EntryId(tweetId), e));
    ResultOf(entry)
  }

  /** `tweetResult.legacy?.entities?.media`. */
  function MediaList(result: TweetResult): Option<seq<MediaItem>> {
    var legacy :- result.legacy;
    var entities :- legacy.entities;
    entities.media
  }

  /** The media list of the target tweet, when every step of the path exists. */
  function TargetMedia(body: Body, tweetId: string): Option<seq<MediaItem>> {
    var result :- TweetResultFor(body, tweetId);
    MediaList(result)
  }

  predicate IsMp4(v: Variant) {
    v.contentType == Some(Mp4)
  }

  /** The descriptor object built from a variant. */
  function MotionOf(v: Variant): Descriptor {
    Motion(v.url, v.bitrate, v.contentType)
  }

  /** The `reduce` seed `{bitrate: 0}`: no url and no content type. */
  const Seed: Descriptor := Motion(None, Some(0), None)

  /** JavaScript's `b > m` when either side may be `undefined` (then false). */
  predicate Exceeds(b: Option<int>, m: Option<int>) {
    b.Some? && m.Some? && b.value > m.value
  }

  predicate HasPositiveBitrate(v: Variant) {
    v.bitrate.Some? && v.bitrate.value > 0
  }

  /** The `reduce` over the mp4 variants: keep the running maximum, replace it
      only by a strictly greater bitrate. */
  function HighestBitrate(vs: seq<Variant>): (r: Descriptor)
    ensures r.Motion? && r.bitrate.Some? && r.bitrate.value >= 0
    ensures forall j :: 0 <= j < |vs| && vs[j].bitrate.Some? ==> vs[j].bitrate.value <= r.bitrate.value
    ensures (forall j :: 0 <= j < |vs| ==> !HasPositiveBitrate(vs[j])) <==> r == Seed
    ensures r == Seed || exists j :: 0 <= j < |vs| && HasPositiveBitrate(vs[j]) && r == MotionOf(vs[j])
  {
    if vs == [] then Seed
    else
      var m := HighestBitrate(vs[..|vs| - 1]);
      var v := vs[|vs| - 1];
      if Exceeds(v.bitrate, m.bitrate) then MotionOf(v) else m
  }

  /** The variant chosen is the first one that carries the maximum bitrate:
      a later variant with an equal bitrate does not replace it. */
  lemma {:induction false} HighestBitrateFirstMax(vs: seq<Variant>, i: nat)
    requires i < |vs| && HasPositiveBitrate(vs[i])
    requires forall j :: 0 <= j < |vs| && vs[j].bitrate.Some? ==> vs[j].bitrate.value <= vs[i].bitrate.value
    requires forall j :: 0 <= j < i && vs[j].bitrate.Some? ==> vs[j].bitrate.value < vs[i].bitrate.value
    ensures HighestBitrate(vs) == MotionOf(vs[i])
  {
    var n := |vs|;
    var prefix := vs[..n - 1];
    if i == n - 1 {
      var m := HighestBitrate(prefix);
      assert m.bitrate.value < vs[i].bitrate.value by {
        if m != Seed {
          var j :| 0 <= j < |prefix| && HasPositiveBitrate(prefix[j]) && m == MotionOf(prefix[j]);
          assert prefix[j] == vs[j];
        }
      }
    } else {
      forall j | 0 <= j < |prefix| && prefix[j].bitrate.Some?
        ensures prefix[j].bitrate.value <= prefix[i].bitrate.value
      {
        assert prefix[j] == vs[j];
      }
      forall j | 0 <= j < i && prefix[j].bitrate.Some?
        ensures prefix[j].bitrate.value < prefix[i].bitrate.value
      {
        assert prefix[j] == vs[j];
      }
      HighestBitrateFirstMax(prefix, i);
    }
  }

  /** `item.video_info.variants`; `None` when `video_info` is absent, where the
      source throws. */
  function Variants(item: MediaItem): Option<seq<Variant>> {
    var info :- item.videoInfo;
    info.variants
  }

  /** What a video item contributes: the highest-bitrate mp4 variant. */
  function VideoChoice(vs: seq<Variant>): (d: Descriptor)
    ensures d.Motion? && d.bitrate.Some? && d.bitrate.value >= 0
    ensures d == Seed || exists j :: 0 <= j < |vs| && IsMp4(vs[j]) && HasPositiveBitrate(vs[j]) && d == MotionOf(vs[j])
  {
    HighestBitrate(Filter(vs, IsMp4))
  }

  /** What an animated gif contributes: its first mp4 variant, if any. */
  function GifChoice(vs: seq<Variant>): (r: Option<Descriptor>)
    ensures r.None? <==> forall j :: 0 <= j < |vs| ==> !IsMp4(vs[j])
    ensures r.Some? ==> exists j :: 0 <= j < |vs| && IsMp4(vs[j]) && r.value == MotionOf(vs[j])
  {
    var v :- Find(vs, IsMp4);
    Some(MotionOf(v))
  }

  /** A video yields a descriptor whose bitrate is at least that of every
      mp4 variant; it is the seed exactly when no mp4 variant has a positive
      bitrate, and otherwise an mp4 variant with a positive bitrate. */
  lemma VideoChoiceMaximal(vs: seq<Variant>)
    ensures VideoChoice(vs).Motion? && VideoChoice(vs).bitrate.Some?
    ensures forall j :: 0 <= j < |vs| && IsMp4(vs[j]) && vs[j].bitrate.Some? ==>
      vs[j].bitrate.value <= VideoChoice(vs).bitrate.value
    ensures VideoChoice(vs) == Seed <==>
      forall j :: 0 <= j < |vs| && IsMp4(vs[j]) ==> !HasPositiveBitrate(vs[j])
    ensures VideoChoice(vs) != Seed ==>
      VideoChoice(vs).contentType == Some(Mp4) && VideoChoice(vs).bitrate.value > 0
  {
    var f := Filter(vs, IsMp4);
    forall j | 0 <= j < |vs| && IsMp4(vs[j]) ensures vs[j] in f {
    }
    if VideoChoice(vs) != Seed {
      var j :| 0 <= j < |f| && HasPositiveBitrate(f[j]) && VideoChoice(vs) == MotionOf(f[j]);
      assert IsMp4(f[j]);
    } else {
      forall j | 0 <= j < |vs| && IsMp4(vs[j]) ensures !HasPositiveBitrate(vs[j]) {
        var k :| 0 <= k < |f| && f[k] == vs[j];
      }
    }
  }

  /** Among the mp4 variants of a video, the first one carrying the highest
      bitrate is chosen, whatever the order of the others. */
  lemma VideoChoiceFirstMax(vs: seq<Variant>, i: nat)
    requires i < |vs| && IsMp4(vs[i]) && HasPositiveBitrate(vs[i])
    requires forall j :: 0 <= j < |vs| && IsMp4(vs[j]) && vs[j].bitrate.Some? ==>
      vs[j].bitrate.value <= vs[i].bitrate.value
    requires forall j :: 0 <= j < i && IsMp4(vs[j]) && vs[j].bitrate.Some? ==>
      vs[j].bitrate.value < vs[i].bitrate.value
    ensures VideoChoice(vs) == MotionOf(vs[i])
  {
    var before, after := vs[..i], vs[i + 1..];
    assert vs == before + ([vs[i]] + after);
    FilterAppend(before, [vs[i]] + after, IsMp4);
    FilterAppend([vs[i]], after, IsMp4);
    assert Filter([vs[i]], IsMp4) == [vs[i]] + Filter([], IsMp4);
    var fb := Filter(before, IsMp4);
    var f := Filter(vs, IsMp4);
    assert f == fb + [vs[i]] + Filter(after, IsMp4);
    var k := |fb|;
    assert f[k] == vs[i];
    forall j | 0 <= j < |f| && f[j].bitrate.Some?
      ensures f[j].bitrate.value <= f[k].bitrate.value
    {
      assert f[j] in vs && IsMp4(f[j]);
      var m :| 0 <= m < |vs| && vs[m] == f[j];
    }
    forall j | 0 <= j < k && f[j].bitrate.Some?
      ensures f[j].bitrate.value < f[k].bitrate.value
    {
      assert f[j] == fb[j];
      assert fb[j] in before && IsMp4(fb[j]);
      var m :| 0 <= m < |before| && before[m] == fb[j];
      assert vs[m] == before[m];
    }
    HighestBitrateFirstMax(f, k);
  }

  /** An animated gif yields its first mp4 variant, with no bitrate
      comparison, and nothing when it has no mp4 variant. */
  lemma GifChoiceFirst(vs: seq<Variant>, i: nat)
    requires i < |vs| && IsMp4(vs[i])
    requires forall j :: 0 <= j < i ==> !IsMp4(vs[j])
    ensures GifChoice(vs) == Some(MotionOf(vs[i]))
  {
    FindFirst(vs, IsMp4, i);
  }

  lemma GifChoiceNone(vs: seq<Variant>)
    ensures GifChoice(vs).None? <==> forall j :: 0 <= j < |vs| ==> !IsMp4(vs[j])
  {
  }

  /** Bitrates 100, 500 and 300: the 500 variant is chosen. */
  lemma VideoChoiceExample()
    ensures VideoChoice([Variant(Some(Mp4), Some("a"), Some(100)),
                         Variant(Some(Mp4), Some("b"), Some(500)),
                         Variant(Some(Mp4), Some("c"), Some(300))])
            == Motion(Some("b"), Some(500), Some(Mp4))
  {
    var vs := [Variant(Some(Mp4), Some("a"), Some(100)),
               Variant(Some(Mp4), Some("b"), Some(500)),
               Variant(Some(Mp4), Some("c"), Some(300))];
    VideoChoiceFirstMax(vs, 1);
  }

  /** A video whose only variant is an HLS playlist yields the bare seed:
      bitrate 0, no url, no content type. */
  lemma VideoChoiceSeedExample()
    ensures VideoChoice([Variant(Some("application/x-mpegURL"), Some("p"), None)]) == Seed
  {
    VideoChoiceMaximal([Variant(Some("application/x-mpegURL"), Some("p"), None)]);
  }

  /** Two mp4 variants of an animated gif: the first is chosen even though
      the second has the higher bitrate. */
  lemma GifChoiceExample()
    ensures GifChoice([Variant(Some(Mp4), Some("a"), Some(100)),
                       Variant(Some(Mp4), Some("b"), Some(500))])
            == Some(Motion(Some("a"), Some(100), Some(Mp4)))
  {
    GifChoiceFirst([Variant(Some(Mp4), Some("a"), Some(100)),
                    Variant(Some(Mp4), Some("b"), Some(500))], 0);
  }

  /** The `flatMap` callback on one media item. */
  function ItemOutcomeOf(item: MediaItem): (o: ItemOutcome)
    ensures item.kind == Some("photo") <==> o.Yield? && o.descriptor.Photo?
    ensures item.kind == Some("video") && o.Yield? ==>
      o.descriptor == Seed || (o.descriptor.contentType == Some(Mp4) && o.descriptor.bitrate.Some? && o.descriptor.bitrate.value > 0)
    ensures item.kind == Some("animated_gif") && o.Yield? ==>
      o.descriptor.Motion? && o.descriptor.contentType == Some(Mp4)
    ensures o.Skip? ==> item.kind != Some("photo") && item.kind != Some("video")
    ensures item.kind == Some("video") && Variants(item).Some? ==>
      o == Yield(VideoChoice(Variants(item).value))
    ensures item.kind == Some("animated_gif") && Variants(item).Some? ==>
      (o.Skip? <==> GifChoice(Variants(item).value).None?) &&
      (o.Yield? ==> Some(o.descriptor) == GifChoice(Variants(item).value))
  {
    if item.kind == Some("photo") then
      Yield(Photo(Show(item.mediaUrlHttps) + OrigSuffix))
    else if item.kind == Some("video") then
      match Variants(item)
      case None => Throw
      case Some(vs) => Yield(VideoChoice(vs))
    else if item.kind == Some("animated_gif") then
      match Variants(item)
      case None => Throw
      case Some(vs) =>
        match GifChoice(vs)
        case None => Skip
        case Some(d) => Yield(d)
    else
      Skip
  }

  /** A photo yields its `media_url_https` (rendered `undefined` when absent)
      followed by `?name=orig`, and nothing else. */
  lemma PhotoOutcome(item: MediaItem)
    requires item.kind == Some("photo")
    ensures ItemOutcomeOf(item).Yield? && ItemOutcomeOf(item).descriptor.Photo?
    ensures var u := ItemOutcomeOf(item).descriptor.photoUrl;
      |u| == |Show(item.mediaUrlHttps)| + |OrigSuffix|
      && u[..|Show(item.mediaUrlHttps)|] == Show(item.mediaUrlHttps)
      && u[|Show(item.mediaUrlHttps)|..] == OrigSuffix
  {
  }

  /** A media item makes the callback throw exactly when it is a video or an
      animated gif without `video_info.variants`; photos and items of any
      other kind never throw, and items of unknown kinds contribute nothing. */
  lemma ItemOutcomeThrows(item: MediaItem)
    ensures ItemOutcomeOf(item).Throw? <==>
      (item.kind == Some("video") || item.kind == Some("animated_gif")) && Variants(item).None?
    ensures item.kind !in {Some("photo"), Some("video"), Some("animated_gif")} ==> ItemOutcomeOf(item) == Skip
    ensures ItemOutcomeOf(item).Yield? && ItemOutcomeOf(item).descriptor.Photo? ==> item.kind == Some("photo")
  {
  }

  /** `media.flatMap(callback)`: `None` when a callback throws. */
  function Collect(items: seq<MediaItem>): (r: Option<seq<Descriptor>>)
    ensures r.Some? <==> forall k :: 0 <= k < |items| ==> !ItemOutcomeOf(items[k]).Throw?
    ensures r.Some? ==> |r.value| <= |items|
  {
    if items == [] then Some([])
    else
      var rest := Collect(items[1..]);
      assert forall k :: 1 <= k < |items| ==> items[k] == items[1..][k - 1];
      match ItemOutcomeOf(items[0])
      case Throw => None
      case Skip => rest
      case Yield(d) => if rest.Some? then Some([d] + rest.value) else None
  }

  /** `flatMap` concatenates in order: the descriptors of a list are those of
      its first part followed by those of its second part. */
  lemma {:induction false} CollectAppend(a: seq<MediaItem>, b: seq<MediaItem>)
    ensures Collect(a + b) ==
      if Collect(a).Some? && Collect(b).Some? then Some(Collect(a).value + Collect(b).value) else None
  {
    if a == [] {
      assert a + b == b;
      assert Collect(a) == Some([]);
      if Collect(b).Some? {
        assert [] + Collect(b).value == Collect(b).value;
      }
    } else {
      assert (a + b)[0] == a[0];
      assert (a + b)[1..] == a[1..] + b;
      CollectAppend(a[1..], b);
      match ItemOutcomeOf(a[0])
      case Throw =>
      case Skip =>
      case Yield(d) =>
        if Collect(a[1..]).Some? && Collect(b).Some? {
          assert [d] + (Collect(a[1..]).value + Collect(b).value)
              == ([d] + Collect(a[1..]).value) + Collect(b).value;
        }
    }
  }

  /** When every item yields a descriptor, the result has one descriptor per
      item, in the items' order. */
  lemma {:induction false} CollectAllYield(items: seq<MediaItem>)
    requires forall k :: 0 <= k < |items| ==> ItemOutcomeOf(items[k]).Yield?
    ensures Collect(items).Some? && |Collect(items).value| == |items|
    ensures forall k :: 0 <= k < |items| ==> Collect(items).value[k] == ItemOutcomeOf(items[k]).descriptor
  {
    if items != [] {
      forall k | 0 <= k < |items[1..]| ensures ItemOutcomeOf(items[1..][k]).Yield? {
        assert items[1..][k] == items[k + 1];
      }
      CollectAllYield(items[1..]);
      forall k | 1 <= k < |items|
        ensures Collect(items).value[k] == ItemOutcomeOf(items[k]).descriptor
      {
        assert items[1..][k - 1] == items[k];
      }
    }
  }

  /** The body of `fetchTweetData` after the HTTP call. */
  function ResolveMedia(response: Response, tweetId: string): (r: seq<Descriptor>)
    ensures r != [] ==> response.ok && response.body.Some?
    ensures r != [] ==> TargetMedia(response.body.value, tweetId).Some?
    ensures r != [] ==> |r| <= |TargetMedia(response.body.value, tweetId).value|
  {
    if !response.ok then []
    else
      match response.body
      case None => []
      case Some(body) =>
        match TweetResultFor(body, tweetId)
        case None => []
        case Some(result) =>
          match MediaList(result)
          case None => []
          case Some(media) =>
            if |media| == 0 then []
            else
              match Collect(media)
              case None => []
              case Some(ds) => ds
  }

  /** A response without an entry `tweet-{tweetId}` in `instructions[0]`
      resolves to no media. */
  lemma ResolveWithoutTargetEntry(response: Response, tweetId: string)
    requires response.body.Some? && FirstEntries(response.body.value).Some?
    requires forall k :: 0 <= k < |FirstEntries(response.body.value).value| ==>
      FirstEntries(response.body.value).value[k].entryId != Some(EntryId(tweetId))
    ensures ResolveMedia(response, tweetId) == []
  {
    var entries := FirstEntries(response.body.value).value;
    assert Find(entries, e => HasEntryId(EntryId(tweetId), e)).None?;
  }

  /** Media are only ever taken from the first entry whose id is
      `tweet-{tweetId}` of the first instruction. */
  lemma ResolveUsesFirstTargetEntry(response: Response, tweetId: string, k: nat)
    requires response.body.Some? && FirstEntries(response.body.value).Some?
    requires k < |FirstEntries(response.body.value).value|
    requires FirstEntries(response.body.value).value[k].entryId == Some(EntryId(tweetId))
    requires forall j :: 0 <= j < k ==> FirstEntries(response.body.value).value[j].entryId != Some(EntryId(tweetId))
    ensures TweetResultFor(response.body.value, tweetId) == ResultOf(FirstEntries(response.body.value).value[k])
  {
    FindFirst(FirstEntries(response.body.value).value, e => HasEntryId(EntryId(tweetId), e), k);
  }

  /** One media item that throws empties the whole result. */
  lemma ResolveThrowEmpties(response: Response, tweetId: string, k: nat)
    requires response.body.Some? && TargetMedia(response.body.value, tweetId).Some?
    requires k < |TargetMedia(response.body.value, tweetId).value|
    requires ItemOutcomeOf(TargetMedia(response.body.value, tweetId).value[k]).Throw?
    ensures ResolveMedia(response, tweetId) == []
  {
  }

  /** On an OK response whose target tweet has media and no item throws, the
      result is the `flatMap` of the media list: each item's descriptor, in
      order, with skipped items left out. */
  lemma ResolveIsCollect(response: Response, tweetId: string)
    requires response.ok && response.body.Some? && TargetMedia(response.body.value, tweetId).Some?
    requires forall k :: 0 <= k < |TargetMedia(response.body.value, tweetId).value| ==>
      !ItemOutcomeOf(TargetMedia(response.body.value, tweetId).value[k]).Throw?
    ensures Collect(TargetMedia(response.body.value, tweetId).value).Some?
    ensures ResolveMedia(response, tweetId) == Collect(TargetMedia(response.body.value, tweetId).value).value
  {
  }
}

