/** The Spotify download helper: reading the item type and id out of a
    Spotify URL, turning the track list of a playlist's embed page into track
    records, choosing a YouTube search result, and the option defaults of the
    download command. The network (Spotify API, embed page, yt-dlp) is not
    modelled: what it returns comes in as arguments. */
module SpotifyDl {
  import opened Wrappers
  import opened Text
  import opened Paths

  // ---------------------------------------------------------------------
  // URL parsing: the search for `spotify\.com/(track|album|playlist)/([a-zA-Z0-9]+)`
  // ---------------------------------------------------------------------

  datatype ItemType = Track | Album | Playlist

  function TypeName(t: ItemType): string {
    match t
    case Track => "track"
    case Album => "album"
    case Playlist => "playlist"
  }

  const Host: string := "spotify.com/"

  /** The character class `[a-zA-Z0-9]`. */
  predicate IsAlnum(c: char) {
    'a' <= c <= 'z' || 'A' <= c <= 'Z' || '0' <= c <= '9'
  }

  predicate AllAlnum(s: string) {
    forall k :: 0 <= k < |s| ==> IsAlnum(s[k])
  }

  /** What the greedy `[a-zA-Z0-9]+` takes at the start of `s`. */
  function AlnumPrefix(s: string): (r: string)
    ensures r <= s && AllAlnum(r)
    ensures |r| == |s| || !IsAlnum(s[|r|])
  {
    if s != [] && IsAlnum(s[0]) then [s[0]] + AlnumPrefix(s[1..]) else []
  }

  /** Which alternative of `(track|album|playlist)/` opens `s`. */
  function TypeAt(s: string): (r: Option<ItemType>)
    ensures r.Some? ==> TypeName(r.value) + "/" <= s
    ensures r.None? ==> forall t :: !(TypeName(t) + "/" <= s)
  {
    if "track/" <= s then Some(Track)
    else if "album/" <= s then Some(Album)
    else if "playlist/" <= s then Some(Playlist)
    else None
  }

  /** The pattern tried at position `p` of the URL. */
  function MatchAt(url: string, p: nat): Option<(ItemType, string)>
    requires p <= |url|
  {
    if !(Host <= url[p..]) then None
    else
      var q := p + |Host|;
      match TypeAt(url[q..])
      case None => None
      case Some(t) =>
        var id := AlnumPrefix(url[q + |TypeName(t)| + 1..]);
        if id == [] then None else Some((t, id))
  }

  /** Reference reading of the pattern: at `p` the URL holds
      `spotify.com/<type>/<id>`, where `id` is a non-empty alphanumeric run
      that is not followed by a further alphanumeric character. */
  predicate Occurrence(url: string, p: int, t: ItemType, id: string) {
    && 0 <= p <= |url|
    && Host <= url[p..]
    && TypeName(t) + "/" <= url[p + |Host|..]
    && id <= url[p + |Host| + |TypeName(t)| + 1..]
    && id != [] && AllAlnum(id)
    && var e := p + |Host| + |TypeName(t)| + 1 + |id|;
       (e == |url| || !IsAlnum(url[e]))
  }

  lemma AlnumPrefixUnique(s: string, id: string)
    requires id <= s && AllAlnum(id) && (|id| == |s| || !IsAlnum(s[|id|]))
    ensures AlnumPrefix(s) == id
  {
    if id != [] {
      AlnumPrefixUnique(s[1..], id[1..]);
    } else if s != [] {
      assert !IsAlnum(s[0]);
    }
  }

  lemma TypeNamesDiffer(t: ItemType, u: ItemType, s: string)
    requires TypeName(t) + "/" <= s && TypeName(u) + "/" <= s
    ensures t == u
  {
    assert s[0] == TypeName(t)[0] && s[0] == TypeName(u)[0];
  }

  /** The alternative `TypeAt` picks is the one that opens `s`. */
  lemma TypeAtOpening(t: ItemType, s: string)
    requires TypeName(t) + "/" <= s
    ensures TypeAt(s) == Some(t)
  {
    TypeNamesDiffer(t, TypeAt(s).value, s);
  }

  /** The id run that starts at `start` ends at the URL's end or before a
      character outside the class. */
  lemma AlnumRunEnds(url: string, start: nat)
    requires start <= |url|
    ensures var id := AlnumPrefix(url[start..]);
            start + |id| <= |url| && (start + |id| == |url| || !IsAlnum(url[start + |id|]))
  {
    var tail := url[start..];
    var id := AlnumPrefix(tail);
    assert |id| < |tail| ==> tail[|id|] == url[start + |id|];
  }

  /** A maximal alphanumeric run at `start` is what `AlnumPrefix` takes. */
  lemma AlnumRunAt(url: string, start: nat, id: string)
    requires start <= |url| && id <= url[start..] && AllAlnum(id)
    requires start + |id| == |url| || !IsAlnum(url[start + |id|])
    ensures AlnumPrefix(url[start..]) == id
  {
    var tail := url[start..];
    assert |id| < |tail| ==> tail[|id|] == url[start + |id|];
    AlnumPrefixUnique(tail, id);
  }

  /** What the anchored pattern finds is an occurrence. */
  lemma MatchAtSound(url: string, p: nat, t: ItemType, id: string)
    requires p <= |url| && MatchAt(url, p) == Some((t, id))
    ensures Occurrence(url, p, t, id)
  {
    var q := p + |Host|;
    assert TypeAt(url[q..]) == Some(t);
    AlnumRunEnds(url, q + |TypeName(t)| + 1);
  }

  /** Every occurrence is what the anchored pattern finds there. */
  lemma MatchAtComplete(url: string, p: nat, t: ItemType, id: string)
    requires p <= |url| && Occurrence(url, p, t, id)
    ensures MatchAt(url, p) == Some((t, id))
  {
    var q := p + |Host|;
    TypeAtOpening(t, url[q..]);
    AlnumRunAt(url, q + |TypeName(t)| + 1, id);
    MatchAtParts(url, p, t, id);
  }

  /** The anchored pattern matches once its three parts are in place. */
  lemma MatchAtParts(url: string, p: nat, t: ItemType, id: string)
    requires p <= |url| && Host <= url[p..]
    requires TypeAt(url[p + |Host|..]) == Some(t)
    requires AlnumPrefix(url[p + |Host| + |TypeName(t)| + 1..]) == id && id != []
    ensures MatchAt(url, p) == Some((t, id))
  {
    var q := p + |Host|;
    var m := TypeAt(url[q..]);
    assert m == Some(t);
  }

  /** The anchored pattern and the reference reading agree. */
  lemma MatchAtIsOccurrence(url: string, p: nat, t: ItemType, id: string)
    requires p <= |url|
    ensures MatchAt(url, p) == Some((t, id)) <==> Occurrence(url, p, t, id)
  {
    if MatchAt(url, p) == Some((t, id)) {
      MatchAtSound(url, p, t, id);
    }
    if Occurrence(url, p, t, id) {
      MatchAtComplete(url, p, t, id);
    }
  }

  /** The pattern does not match at `q`. */
  ghost predicate Absent(url: string, q: int) {
    forall t, id :: !Occurrence(url, q, t, id)
  }

  /** Where the anchored pattern fails, there is no occurrence. */
  lemma NoMatchAt(url: string, p: nat)
    requires p <= |url| && MatchAt(url, p).None?
    ensures Absent(url, p)
  {
    forall t, id ensures !Occurrence(url, p, t, id) {
      if Occurrence(url, p, t, id) {
        MatchAtComplete(url, p, t, id);
      }
    }
  }

  /** Positions where the anchored pattern fails hold no occurrence, and
      neither does any position outside the URL. */
  lemma NoMatchBefore(url: string, pos: int)
    requires pos <= |url| + 1
    requires forall q :: 0 <= q < pos ==> MatchAt(url, q).None?
    ensures forall q :: q < pos ==> Absent(url, q)
  {
    forall q | 0 <= q < pos ensures Absent(url, q) {
      NoMatchAt(url, q);
    }
  }

  /** No occurrence starts past the end of the URL. */
  lemma AbsentPastEnd(url: string)
    ensures forall q :: q > |url| ==> Absent(url, q)
  {
  }

  /** The anchored pattern's outcome at every position of the URL, its end
      included: the positions `re.search` tries, in order. */
  function Matches(url: string): (ms: seq<Option<(ItemType, string)>>)
    ensures |ms| == |url| + 1
    ensures forall q :: 0 <= q <= |url| ==> ms[q] == MatchAt(url, q)
  {
    seq(|url| + 1, q requires 0 <= q <= |url| => MatchAt(url, q))
  }

  /** The scan of `re.search`: the first position from `from` on whose
      outcome is a match. */
  function FirstMatch(ms: seq<Option<(ItemType, string)>>, from: nat): (r: Option<nat>)
    requires from <= |ms|
    ensures r.Some? ==> from <= r.value < |ms| && ms[r.value].Some?
                        && forall q :: from <= q < r.value ==> ms[q].None?
    ensures r.None? ==> forall q :: from <= q < |ms| ==> ms[q].None?
    decreases |ms| - from
  {
    if from == |ms| then None
    else if ms[from].Some? then Some(from)
    else FirstMatch(ms, from + 1)
  }

  /** `extract_spotify_info`: the type and id of the leftmost
      `spotify.com/<type>/<id>` in the URL, or `None` (Python's
      `(None, None)`) when there is none. */
  function ExtractSpotifyInfo(url: string): (r: Option<(ItemType, string)>)
    ensures r.None? <==> forall p :: Absent(url, p)
    ensures r.Some? ==> exists p :: Occurrence(url, p, r.value.0, r.value.1)
                                    && forall q :: q < p ==> Absent(url, q)
  {
    var ms := Matches(url);
    match FirstMatch(ms, 0)
    case None =>
      NoMatchBefore(url, |url| + 1);
      AbsentPastEnd(url);
      None
    case Some(p) =>
      var (t, id) := ms[p].value;
      MatchAtSound(url, p, t, id);
      NoMatchBefore(url, p);
      assert !Absent(url, p);
      Some((t, id))
  }

  // ---------------------------------------------------------------------
  // The download command's checks and option defaults
  // ---------------------------------------------------------------------

  datatype DownloadError = InvalidSpotifyUrl | OnlySingleTracks

  /** The two URL checks of `cmd_download`: the URL must parse, and it must
      name a single track. */
  function CheckDownloadUrl(url: string): (r: Result<string, DownloadError>)
    ensures r == Failure(InvalidSpotifyUrl) <==> ExtractSpotifyInfo(url).None?
    ensures r == Failure(OnlySingleTracks) <==>
              ExtractSpotifyInfo(url).Some? && ExtractSpotifyInfo(url).value.0 != Track
    ensures r.Success? ==> ExtractSpotifyInfo(url) == Some((Track, r.value))
  {
    match ExtractSpotifyInfo(url)
    case None => Failure(InvalidSpotifyUrl)
    case Some((t, id)) => if t != Track then Failure(OnlySingleTracks) else Success(id)
  }

  /** The download options as given; an empty string stands for an option
      that was left out (both are falsy to the `or` defaults). */
  datatype DownloadArgs = DownloadArgs(outputTemplate: string, format: string, bitrate: string)

  datatype DownloadPlan = DownloadPlan(
    outputTemplate: string,
    audioFormat: string,
    bitrateNum: string,
    outputPath: string,
    outputPattern: string)

  const DefaultFormat: string := "mp3"
  const DefaultBitrate: string := "320k"
  const KiloSuffix: set<char> := {'k', 'K'}

  /** `Or(a, b)`: Python's `a or b` on strings. */
  function Or(a: string, b: string): (r: string)
    ensures a != "" ==> r == a
    ensures a == "" ==> r == b
  {
    if a != "" then a else b
  }

  /** Lines 292-304 of `cmd_download`: the output template defaults to the
      song id, the format to `mp3`, the bitrate to `320k`; every trailing
      `k` or `K` is cut from the bitrate; the output file is
      `<dir>/<template>.<format>`. `outputDir` is the directory already
      resolved (`abspath` of the option, or a fresh temporary directory). */
  function PlanDownload(args: DownloadArgs, songId: string, outputDir: string): (plan: DownloadPlan)
    ensures plan.outputTemplate == Or(args.outputTemplate, songId)
    ensures plan.audioFormat == Or(args.format, DefaultFormat) && plan.audioFormat != ""
    ensures plan.bitrateNum <= Or(args.bitrate, DefaultBitrate)
    ensures forall k :: |plan.bitrateNum| <= k < |Or(args.bitrate, DefaultBitrate)| ==>
              Or(args.bitrate, DefaultBitrate)[k] in KiloSuffix
    ensures plan.bitrateNum == [] || plan.bitrateNum[|plan.bitrateNum| - 1] !in KiloSuffix
    ensures plan.outputPath == JoinPath(outputDir, plan.outputTemplate + "." + plan.audioFormat)
    ensures plan.outputPattern == JoinPath(outputDir, plan.outputTemplate + ".%(ext)s")
  {
    var template := Or(args.outputTemplate, songId);
    var format := Or(args.format, DefaultFormat);
    var bitrate := Or(args.bitrate, DefaultBitrate);
    DownloadPlan(
      template, format, RStrip(bitrate, KiloSuffix),
      JoinPath(outputDir, template + "." + format),
      JoinPath(outputDir, template + ".%(ext)s"))
  }

  /** The output file sits in the output directory: its components are
      the directory's followed by the file name. */
  lemma OutputPathInDir(args: DownloadArgs, songId: string, outputDir: string)
    requires '/' !in Or(args.outputTemplate, songId) && '/' !in Or(args.format, DefaultFormat)
    ensures var plan := PlanDownload(args, songId, outputDir);
            Components(Split(plan.outputPath, '/'))
            == Components(Split(outputDir, '/')) + [plan.outputTemplate + "." + plan.audioFormat]
  {
    var plan := PlanDownload(args, songId, outputDir);
    var file := plan.outputTemplate + "." + plan.audioFormat;
    assert '/' !in file;
    assert file != "." by {
      assert |file| >= 2;
    }
    JoinComponents(outputDir, file);
    PlainNameComponents(file);
  }

  /** With no options given, the bitrate handed to the encoder is `320`. */
  lemma DefaultBitrateIs320(songId: string, outputDir: string)
    ensures PlanDownload(DownloadArgs("", "", ""), songId, outputDir).bitrateNum == "320"
  {
    assert "320k"[..3] == "320";
    assert RStrip("320", KiloSuffix) == "320";
  }

  /** The downloaded file is named `<template>.<format>`, inside the output
      directory, whenever the template and format are plain names. */
  lemma OutputFileName(args: DownloadArgs, songId: string, outputDir: string)
    requires '/' !in Or(args.outputTemplate, songId) && '/' !in Or(args.format, DefaultFormat)
    ensures var plan := PlanDownload(args, songId, outputDir);
            PathName(plan.outputPath) == plan.outputTemplate + "." + plan.audioFormat
  {
    var plan := PlanDownload(args, songId, outputDir);
    var file := plan.outputTemplate + "." + plan.audioFormat;
    assert '/' !in file;
    assert file != "." by {
      assert |file| >= 2;
    }
    NameOfJoin(outputDir, file);
  }

  // ---------------------------------------------------------------------
  // Choosing a YouTube search result (`search_youtube`)
  // ---------------------------------------------------------------------

  /** A search entry: a duration of `0` stands for a missing one and an
      empty string for a missing link (`or` treats them alike). */
  datatype Entry = Entry(duration: real, url: string, webpageUrl: string)

  /** An entry as yt-dlp lists it; `Falsy` is `None` or an empty dict. */
  datatype RawEntry = Falsy | Present(entry: Entry)

  /** The search results in order, with the falsy ones dropped. */
  function Entries(raw: seq<RawEntry>): (es: seq<Entry>)
    ensures |es| <= |raw|
    ensures forall e :: e in es <==> Present(e) in raw
  {
    if raw == [] then []
    else
      var rest := Entries(raw[1..]);
      assert raw == [raw[0]] + raw[1..];
      if raw[0].Present? then [raw[0].entry] + rest else rest
  }

  /** Filtering keeps the order of the results. */
  lemma {:induction false} EntriesAppend(a: seq<RawEntry>, b: seq<RawEntry>)
    ensures Entries(a + b) == Entries(a) + Entries(b)
  {
    if a != [] {
      assert (a + b)[0] == a[0];
      assert (a + b)[1..] == a[1..] + b;
      EntriesAppend(a[1..], b);
    } else {
      assert a + b == b;
    }
  }

  /** A single result is kept exactly when it is truthy. */
  lemma EntriesOne(r: RawEntry)
    ensures Entries([r]) == if r.Present? then [r.entry] else []
  {
    assert [r][1..] == [];
  }

  function Abs(x: real): real { if x < 0.0 then -x else x }

  /** An entry whose known duration is within ten seconds of the hint. */
  predicate Close(e: Entry, hint: real) {
    e.duration != 0.0 && Abs(e.duration - hint) < 10.0
  }

  /** `entry.get("url") or entry.get("webpage_url")` */
  function Link(e: Entry): string {
    if e.url != "" then e.url else e.webpageUrl
  }

  /** The result selection of `search_youtube`: `info` is what the search
      returned (`None` when it returned nothing or no `entries`), and a
      `hint` of `0` means no duration hint. With a hint and at least two
      entries, the first entry close to the hint wins; otherwise the first
      entry. */
  method SearchYoutube(info: Option<seq<RawEntry>>, hint: real) returns (link: Option<string>)
    ensures info.None? ==> link.None?
    ensures info.Some? ==>
      var es := Entries(info.value);
      if es == [] then link.None?
      else if hint != 0.0 && |es| > 1 && (exists k :: 0 <= k < |es| && Close(es[k], hint)) then
        exists k :: 0 <= k < |es| && Close(es[k], hint)
                    && (forall j :: 0 <= j < k ==> !Close(es[j], hint))
                    && link == Some(Link(es[k]))
      else link == Some(Link(es[0]))
  {
    if info.None? {
      return None;
    }
    var entries := Entries(info.value);
    if entries == [] {
      return None;
    }
    if hint != 0.0 && |entries| > 1 {
      var i := 0;
      while i < |entries|
        invariant 0 <= i <= |entries|
        invariant forall j :: 0 <= j < i ==> !Close(entries[j], hint)
      {
        var entry := entries[i];
        if entry.duration != 0.0 && Abs(entry.duration - hint) < 10.0 {
          return Some(Link(entry));
        }
        i := i + 1;
      }
    }
    var best := entries[0];
    return Some(Link(best));
  }

  // ---------------------------------------------------------------------
  // Playlist track records (`fetch_playlist_metadata`, lines 137-200)
  // ---------------------------------------------------------------------

  /** A `coverArt.sources` element; `url` is `None` when the key is absent. */
  datatype CoverSource = CoverSource(url: Option<string>)

  /** A `trackList` item of the embed page; absent keys read as `""`, `0`
      or an empty source list, the defaults the source's `.get` calls use. */
  datatype EmbedItem = EmbedItem(
    uri: string,
    title: string,
    subtitle: string,
    durationMs: real,
    coverSources: seq<CoverSource>)

  /** The `entity` object of the embed page. */
  datatype Entity = Entity(title: string, coverSources: seq<CoverSource>, trackList: seq<EmbedItem>)

  /** What the per-track API call added (`album_map[tid]`). */
  datatype Enrichment = Enrichment(albumName: string, albumArtist: string, isrc: string)

  datatype PlaylistInfo = PlaylistInfo(name: string, cover: string, spotifyId: string)

  datatype TrackRecord = TrackRecord(
    name: string,
    artists: seq<string>,
    albumName: string,
    albumArtist: string,
    duration: real,
    songId: string,
    coverUrl: string,
    url: string,
    trackNumber: nat,
    discNumber: nat,
    isrc: string)

  datatype PlaylistMetadata = PlaylistMetadata(playlist: PlaylistInfo, tracks: seq<TrackRecord>)

  /** An `(i, item, tid)` triple of `embed_tracks`. */
  datatype EmbedTrack = EmbedTrack(index: nat, item: EmbedItem, trackId: string)

  const TrackUriPrefix: string := "spotify:track:"
  const TrackUrlPrefix: string := "https://open.spotify.com/track/"

  /** The playlist cover: the first cover source's url, else `""`. */
  function PlaylistCover(entity: Entity): string {
    if entity.coverSources != [] then entity.coverSources[0].url.GetOr("") else ""
  }

  /** A track's cover: its first cover source's url, else the playlist's. */
  function TrackCover(item: EmbedItem, playlistCover: string): string {
    if item.coverSources != [] then item.coverSources[0].url.GetOr(playlistCover) else playlistCover
  }

  /** The id in a Spotify URI: the text after its last colon. */
  function TrackIdOf(uri: string): (id: string)
    ensures ':' !in id
    ensures |id| <= |uri| && uri[|uri| - |id|..] == id
    ensures |id| < |uri| ==> uri[|uri| - |id| - 1] == ':'
  {
    var parts := Split(uri, ':');
    LastPartIsSuffix(parts, ':');
    parts[|parts| - 1]
  }

  lemma {:induction false} LastPartIsSuffix(parts: seq<string>, sep: char)
    requires |parts| >= 1
    ensures var s, last := Join(parts, sep), parts[|parts| - 1];
            |last| <= |s| && s[|s| - |last|..] == last && (|last| < |s| ==> s[|s| - |last| - 1] == sep)
  {
    if |parts| > 1 {
      LastPartIsSuffix(parts[1..], sep);
    }
  }

  /** The non-empty strings, in order. */
  function NonBlank(xs: seq<string>): (r: seq<string>)
    ensures |r| <= |xs|
  {
    if xs == [] then []
    else (if xs[0] == "" then [] else [xs[0]]) + NonBlank(xs[1..])
  }

  /** Filtering keeps order: the result for a concatenation is the
      concatenation of the results. */
  lemma {:induction false} NonBlankAppend(a: seq<string>, b: seq<string>)
    ensures NonBlank(a + b) == NonBlank(a) + NonBlank(b)
  {
    if a != [] {
      assert (a + b)[0] == a[0];
      assert (a + b)[1..] == a[1..] + b;
      NonBlankAppend(a[1..], b);
    } else {
      assert a + b == b;
    }
  }

  /** Filtering keeps exactly the non-empty strings. */
  lemma {:induction false} NonBlankMembers(xs: seq<string>)
    ensures forall x :: x in NonBlank(xs) <==> x in xs && x != ""
  {
    if xs != [] {
      NonBlankMembers(xs[1..]);
      assert xs == [xs[0]] + xs[1..];
    }
  }

  /** The parts in order, each with the whitespace around it stripped, the
      ones left empty dropped. */
  function NonBlankStripped(parts: seq<string>): (r: seq<string>)
    ensures |r| <= |parts|
    ensures forall k :: 0 <= k < |r| ==> r[k] != "" && IsStripped(r[k])
  {
    StripAllStripped(parts);
    NonBlankOfStripped(StripAll(parts));
    NonBlank(StripAll(parts))
  }

  lemma NonBlankOfStripped(xs: seq<string>)
    requires forall x :: x in xs ==> IsStripped(x)
    ensures forall k :: 0 <= k < |NonBlank(xs)| ==> NonBlank(xs)[k] != "" && IsStripped(NonBlank(xs)[k])
  {
    NonBlankMembers(xs);
    var r := NonBlank(xs);
    assert forall k :: 0 <= k < |r| ==> r[k] in r;
  }

  /** A part is kept, stripped, exactly when it is not blank. */
  lemma NonBlankStrippedOne(p: string)
    ensures NonBlankStripped([p]) == if Strip(p) == "" then [] else [Strip(p)]
  {
    assert StripAll([p])[1..] == [];
  }

  /** Parts are kept in their order: the result for a concatenation is the
      concatenation of the results. */
  lemma NonBlankStrippedAppend(a: seq<string>, b: seq<string>)
    ensures NonBlankStripped(a + b) == NonBlankStripped(a) + NonBlankStripped(b)
  {
    StripAllAppend(a, b);
    NonBlankAppend(StripAll(a), StripAll(b));
  }

  /** Every element is a stripped part, and every part that is not blank
      appears stripped. */
  lemma NonBlankStrippedMembers(parts: seq<string>)
    ensures forall x :: x in NonBlankStripped(parts) <==> x in StripAll(parts) && x != ""
    ensures forall x :: x in StripAll(parts) <==> exists j :: 0 <= j < |parts| && x == Strip(parts[j])
  {
    NonBlankMembers(StripAll(parts));
    StripAllMembers(parts);
  }

  /** The `artists` of a track: the comma-separated parts of the subtitle,
      stripped, blanks dropped. */
  function SplitArtists(subtitle: string): (artists: seq<string>)
    ensures forall k :: 0 <= k < |artists| ==> artists[k] != "" && IsStripped(artists[k])
  {
    NonBlankStripped(Split(subtitle, ','))
  }

  /** The album artist to fall back on: the first comma-separated part of
      the subtitle, stripped, or `""` for an empty subtitle. */
  function FallbackAlbumArtist(subtitle: string): string {
    if subtitle != "" then Strip(Split(subtitle, ',')[0]) else ""
  }

  /** The record built for one embed track. */
  function BuildTrack(e: EmbedTrack, playlistCover: string, albumMap: map<string, Enrichment>): TrackRecord {
    var enriched := if e.trackId in albumMap then Some(albumMap[e.trackId]) else None;
    var enrichedArtist := if enriched.Some? then enriched.value.albumArtist else "";
    TrackRecord(
      name := e.item.title,
      artists := SplitArtists(e.item.subtitle),
      albumName := if enriched.Some? then enriched.value.albumName else "",
      albumArtist := Or(enrichedArtist, FallbackAlbumArtist(e.item.subtitle)),
      duration := e.item.durationMs / 1000.0,
      songId := e.trackId,
      coverUrl := TrackCover(e.item, playlistCover),
      url := TrackUrlPrefix + e.trackId,
      trackNumber := e.index + 1,
      discNumber := 1,
      isrc := if enriched.Some? then enriched.value.isrc else "")
  }

  /** `es` holds one triple per item of `items` whose uri starts with
      `spotify:track:`, in list order, each carrying the item's index in
      the whole list and the id after the uri's last colon. */
  predicate ListsTrackItems(items: seq<EmbedItem>, es: seq<EmbedTrack>) {
    && |es| <= |items|
    && (forall k :: 0 <= k < |es| ==>
          es[k].index < |items| && es[k].item == items[es[k].index]
          && TrackUriPrefix <= es[k].item.uri && es[k].trackId == TrackIdOf(es[k].item.uri))
    && (forall k, l :: 0 <= k < l < |es| ==> es[k].index < es[l].index)
    && (forall i :: 0 <= i < |items| && TrackUriPrefix <= items[i].uri ==>
          exists k :: 0 <= k < |es| && es[k].index == i)
  }

  /** The `embed_tracks` list. */
  function EmbedTracks(items: seq<EmbedItem>): (es: seq<EmbedTrack>)
    ensures ListsTrackItems(items, es)
  {
    if items == [] then []
    else
      var n := |items| - 1;
      var front := EmbedTracks(items[..n]);
      ListsNext(items, front);
      if TrackUriPrefix <= items[n].uri then front + [EmbedTrack(n, items[n], TrackIdOf(items[n].uri))]
      else front
  }

  /** Looking at one more item keeps the list of track items complete. */
  lemma ListsNext(items: seq<EmbedItem>, front: seq<EmbedTrack>)
    requires items != [] && ListsTrackItems(items[..|items| - 1], front)
    ensures var n := |items| - 1;
            ListsTrackItems(items, if TrackUriPrefix <= items[n].uri
                                   then front + [EmbedTrack(n, items[n], TrackIdOf(items[n].uri))]
                                   else front)
  {
    var n := |items| - 1;
    if TrackUriPrefix <= items[n].uri {
      ListsTrackItem(items, front, EmbedTrack(n, items[n], TrackIdOf(items[n].uri)));
    } else {
      ListsOtherItem(items, front);
    }
  }

  lemma ListsTrackItem(items: seq<EmbedItem>, front: seq<EmbedTrack>, e: EmbedTrack)
    requires items != [] && ListsTrackItems(items[..|items| - 1], front)
    requires e == EmbedTrack(|items| - 1, items[|items| - 1], TrackIdOf(items[|items| - 1].uri))
    requires TrackUriPrefix <= e.item.uri
    ensures ListsTrackItems(items, front + [e])
  {
    TrackItemEntries(items, front, e);
    TrackItemOrder(items, front, e);
    TrackItemCovered(items, front, e);
  }

  lemma TrackItemEntries(items: seq<EmbedItem>, front: seq<EmbedTrack>, e: EmbedTrack)
    requires items != [] && ListsTrackItems(items[..|items| - 1], front)
    requires e == EmbedTrack(|items| - 1, items[|items| - 1], TrackIdOf(items[|items| - 1].uri))
    requires TrackUriPrefix <= e.item.uri
    ensures var es := front + [e];
            forall k :: 0 <= k < |es| ==>
              es[k].index < |items| && es[k].item == items[es[k].index]
              && TrackUriPrefix <= es[k].item.uri && es[k].trackId == TrackIdOf(es[k].item.uri)
  {
    var prefix := items[..|items| - 1];
    var es := front + [e];
    forall k | 0 <= k < |front|
      ensures es[k].index < |items| && es[k].item == items[es[k].index]
              && TrackUriPrefix <= es[k].item.uri && es[k].trackId == TrackIdOf(es[k].item.uri)
    {
      assert es[k] == front[k] && prefix[front[k].index] == items[front[k].index];
    }
    assert es[|front|] == e;
  }

  lemma TrackItemOrder(items: seq<EmbedItem>, front: seq<EmbedTrack>, e: EmbedTrack)
    requires items != [] && ListsTrackItems(items[..|items| - 1], front)
    requires e.index == |items| - 1
    ensures var es := front + [e];
            forall k, l :: 0 <= k < l < |es| ==> es[k].index < es[l].index
  {
    var es := front + [e];
    forall k, l | 0 <= k < l < |es| ensures es[k].index < es[l].index {
      assert es[k] == front[k];
      if l < |front| {
        assert es[l] == front[l];
      }
    }
  }

  lemma TrackItemCovered(items: seq<EmbedItem>, front: seq<EmbedTrack>, e: EmbedTrack)
    requires items != [] && ListsTrackItems(items[..|items| - 1], front)
    requires e.index == |items| - 1
    ensures var es := front + [e];
            forall i :: 0 <= i < |items| && TrackUriPrefix <= items[i].uri ==>
              exists k :: 0 <= k < |es| && es[k].index == i
  {
    var n := |items| - 1;
    var prefix := items[..n];
    var es := front + [e];
    forall i | 0 <= i < |items| && TrackUriPrefix <= items[i].uri
      ensures exists k :: 0 <= k < |es| && es[k].index == i
    {
      if i == n {
        assert es[|front|].index == n;
      } else {
        assert prefix[i] == items[i];
        var k :| 0 <= k < |front| && front[k].index == i;
        assert es[k] == front[k];
      }
    }
  }

  lemma ListsOtherItem(items: seq<EmbedItem>, front: seq<EmbedTrack>)
    requires items != [] && ListsTrackItems(items[..|items| - 1], front)
    requires !(TrackUriPrefix <= items[|items| - 1].uri)
    ensures ListsTrackItems(items, front)
  {
    var n := |items| - 1;
    var prefix := items[..n];
    forall k | 0 <= k < |front| ensures front[k].item == items[front[k].index] {
      assert prefix[front[k].index] == items[front[k].index];
    }
    forall i | 0 <= i < |items| && TrackUriPrefix <= items[i].uri
      ensures exists k :: 0 <= k < |front| && front[k].index == i
    {
      assert prefix[i] == items[i];
    }
  }

  /** One record per embed track, in the same order. */
  function Builds(es: seq<EmbedTrack>, playlistCover: string, albumMap: map<string, Enrichment>): (ts: seq<TrackRecord>)
    ensures |ts| == |es|
  {
    if es == [] then []
    else Builds(es[..|es| - 1], playlistCover, albumMap) + [BuildTrack(es[|es| - 1], playlistCover, albumMap)]
  }

  /** The `k`-th record is built from the `k`-th embed track. */
  lemma {:induction false} BuildsAt(es: seq<EmbedTrack>, playlistCover: string, albumMap: map<string, Enrichment>, k: nat)
    requires k < |es|
    ensures Builds(es, playlistCover, albumMap)[k] == BuildTrack(es[k], playlistCover, albumMap)
  {
    if k < |es| - 1 {
      BuildsAt(es[..|es| - 1], playlistCover, albumMap, k);
    }
  }

  lemma EmbedTracksStep(items: seq<EmbedItem>, i: nat)
    requires i < |items|
    ensures EmbedTracks(items[..i + 1]) ==
              EmbedTracks(items[..i]) + (if TrackUriPrefix <= items[i].uri
                                         then [EmbedTrack(i, items[i], TrackIdOf(items[i].uri))] else [])
  {
    assert items[..i + 1][..i] == items[..i];
  }

  lemma BuildsStep(es: seq<EmbedTrack>, j: nat, cover: string, albumMap: map<string, Enrichment>)
    requires j < |es|
    ensures Builds(es[..j + 1], cover, albumMap) == Builds(es[..j], cover, albumMap) + [BuildTrack(es[j], cover, albumMap)]
  {
    assert es[..j + 1][..j] == es[..j];
  }

  /** The track records of a playlist. */
  function PlaylistTracks(items: seq<EmbedItem>, playlistCover: string, albumMap: map<string, Enrichment>): seq<TrackRecord> {
    Builds(EmbedTracks(items), playlistCover, albumMap)
  }

  /** The transformation half of `fetch_playlist_metadata`, given the embed
      page's `entity` and the `album_map` the API calls produced. */
  method FetchPlaylistMetadata(entity: Entity, playlistId: string, albumMap: map<string, Enrichment>)
    returns (r: PlaylistMetadata)
    ensures r.playlist == PlaylistInfo(entity.title, PlaylistCover(entity), playlistId)
    ensures r.tracks == PlaylistTracks(entity.trackList, PlaylistCover(entity), albumMap)
  {
    var trackList := entity.trackList;
    var playlistCover := PlaylistCover(entity);
    var playlistInfo := PlaylistInfo(entity.title, playlistCover, playlistId);
    if trackList == [] {
      return PlaylistMetadata(playlistInfo, []);
    }

    var embedTracks: seq<EmbedTrack> := [];
    var i := 0;
    while i < |trackList|
      invariant 0 <= i <= |trackList|
      invariant embedTracks == EmbedTracks(trackList[..i])
    {
      var item := trackList[i];
      EmbedTracksStep(trackList, i);
      if TrackUriPrefix <= item.uri {
        embedTracks := embedTracks + [EmbedTrack(i, item, TrackIdOf(item.uri))];
      }
      i := i + 1;
    }
    assert trackList[..i] == trackList;

    var tracks: seq<TrackRecord> := [];
    var j := 0;
    while j < |embedTracks|
      invariant 0 <= j <= |embedTracks|
      invariant tracks == Builds(embedTracks[..j], playlistCover, albumMap)
    {
      BuildsStep(embedTracks, j, playlistCover, albumMap);
      tracks := tracks + [BuildTrack(embedTracks[j], playlistCover, albumMap)];
      j := j + 1;
    }
    assert embedTracks[..j] == embedTracks;
    return PlaylistMetadata(playlistInfo, tracks);
  }

  /** Each playlist track comes from a track item of the list: its number
      is that item's 1-based position in the whole list (skipped items
      counted), its id is the text after the item uri's last colon, its url
      is the open.spotify.com track url of that id, and it is disc 1. */
  lemma PlaylistTrackOrigin(items: seq<EmbedItem>, cover: string, albumMap: map<string, Enrichment>, k: nat)
    requires k < |PlaylistTracks(items, cover, albumMap)|
    ensures var t := PlaylistTracks(items, cover, albumMap)[k];
            var i := t.trackNumber - 1;
            && 1 <= t.trackNumber <= |items|
            && TrackUriPrefix <= items[i].uri
            && t.songId == TrackIdOf(items[i].uri)
            && t.url == TrackUrlPrefix + t.songId
            && t.discNumber == 1
            && t.name == items[i].title
            && t.duration == items[i].durationMs / 1000.0
  {
    var es := EmbedTracks(items);
    BuildsAt(es, cover, albumMap, k);
  }

  /** Each record's number is one more than its embed track's index. */
  lemma TrackNumbers(items: seq<EmbedItem>, cover: string, albumMap: map<string, Enrichment>)
    ensures var es, ts := EmbedTracks(items), PlaylistTracks(items, cover, albumMap);
            forall k :: 0 <= k < |ts| ==> ts[k].trackNumber == es[k].index + 1
  {
    var es := EmbedTracks(items);
    forall k | 0 <= k < |es| ensures PlaylistTracks(items, cover, albumMap)[k].trackNumber == es[k].index + 1 {
      BuildsAt(es, cover, albumMap, k);
    }
  }

  /** Every track item of the list yields a record, numbered after the
      item's position. */
  lemma PlaylistTracksCoverTrackItems(items: seq<EmbedItem>, cover: string, albumMap: map<string, Enrichment>)
    ensures var ts := PlaylistTracks(items, cover, albumMap);
            forall i :: 0 <= i < |items| && TrackUriPrefix <= items[i].uri ==>
              exists k :: 0 <= k < |ts| && ts[k].trackNumber == i + 1
  {
    TrackNumbers(items, cover, albumMap);
    NumbersCover(items, EmbedTracks(items), PlaylistTracks(items, cover, albumMap));
  }

  lemma NumbersCover(items: seq<EmbedItem>, es: seq<EmbedTrack>, ts: seq<TrackRecord>)
    requires |ts| == |es|
    requires forall k :: 0 <= k < |ts| ==> ts[k].trackNumber == es[k].index + 1
    requires forall i :: 0 <= i < |items| && TrackUriPrefix <= items[i].uri ==>
               exists k :: 0 <= k < |es| && es[k].index == i
    ensures forall i :: 0 <= i < |items| && TrackUriPrefix <= items[i].uri ==>
              exists k :: 0 <= k < |ts| && ts[k].trackNumber == i + 1
  {
    forall i | 0 <= i < |items| && TrackUriPrefix <= items[i].uri
      ensures exists k :: 0 <= k < |ts| && ts[k].trackNumber == i + 1
    {
      var k :| 0 <= k < |es| && es[k].index == i;
      assert ts[k].trackNumber == i + 1;
    }
  }

  /** The records keep list order: their numbers strictly increase. */
  lemma PlaylistTracksInOrder(items: seq<EmbedItem>, cover: string, albumMap: map<string, Enrichment>)
    ensures var ts := PlaylistTracks(items, cover, albumMap);
            forall k, l :: 0 <= k < l < |ts| ==> ts[k].trackNumber < ts[l].trackNumber
  {
    TrackNumbers(items, cover, albumMap);
  }

  /** Items without a `spotify:track:` uri yield no record at all. */
  lemma NonTrackItemsSkipped(items: seq<EmbedItem>, cover: string, albumMap: map<string, Enrichment>)
    requires forall i :: 0 <= i < |items| ==> !(TrackUriPrefix <= items[i].uri)
    ensures PlaylistTracks(items, cover, albumMap) == []
  {
    NoTrackItemsNoEmbedTracks(items);
  }

  lemma {:induction false} NoTrackItemsNoEmbedTracks(items: seq<EmbedItem>)
    requires forall i :: 0 <= i < |items| ==> !(TrackUriPrefix <= items[i].uri)
    ensures EmbedTracks(items) == []
  {
    if items != [] {
      var n := |items| - 1;
      assert forall i :: 0 <= i < n ==> items[..n][i] == items[i];
      NoTrackItemsNoEmbedTracks(items[..n]);
    }
  }

  /** The record of an embed track: album artist from the enrichment when
      non-empty, else the first comma part of the subtitle, which is then
      also the first artist unless it is blank; cover from the item's first
      cover source, else the playlist's. */
  lemma BuildTrackFallbacks(e: EmbedTrack, cover: string, albumMap: map<string, Enrichment>)
    ensures var t := BuildTrack(e, cover, albumMap);
            var enriched := e.trackId in albumMap && albumMap[e.trackId].albumArtist != "";
            && (enriched ==> t.albumArtist == albumMap[e.trackId].albumArtist)
            && (!enriched ==> t.albumArtist == FallbackAlbumArtist(e.item.subtitle))
            && (!enriched && t.albumArtist != "" ==> t.artists != [] && t.albumArtist == t.artists[0])
            && (e.item.coverSources == [] ==> t.coverUrl == cover)
            && (e.item.coverSources != [] && e.item.coverSources[0].url.Some? ==>
                  t.coverUrl == e.item.coverSources[0].url.value)
            && (e.item.coverSources != [] && e.item.coverSources[0].url.None? ==> t.coverUrl == cover)
  {
    var t := BuildTrack(e, cover, albumMap);
    var enriched := e.trackId in albumMap && albumMap[e.trackId].albumArtist != "";
    if !enriched && t.albumArtist != "" {
      FirstArtistIsFallback(e.item.subtitle);
    }
  }

  /** A non-blank first comma part of the subtitle is the first artist. */
  lemma FirstArtistIsFallback(subtitle: string)
    requires FallbackAlbumArtist(subtitle) != ""
    ensures SplitArtists(subtitle) != [] && SplitArtists(subtitle)[0] == FallbackAlbumArtist(subtitle)
  {
    var parts := Split(subtitle, ',');
    assert parts == [parts[0]] + parts[1..];
    NonBlankStrippedAppend([parts[0]], parts[1..]);
    NonBlankStrippedOne(parts[0]);
  }

  /** The `k`-th playlist record is built from the embed track of the
      item at position `trackNumber - 1`. */
  lemma PlaylistTrackSource(items: seq<EmbedItem>, cover: string, albumMap: map<string, Enrichment>, k: nat)
    requires k < |PlaylistTracks(items, cover, albumMap)|
    ensures var t := PlaylistTracks(items, cover, albumMap)[k];
            && 1 <= t.trackNumber <= |items|
            && t == BuildTrack(EmbedTrack(t.trackNumber - 1, items[t.trackNumber - 1], t.songId), cover, albumMap)
  {
    var es := EmbedTracks(items);
    BuildsAt(es, cover, albumMap, k);
  }
}
