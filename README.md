# Sound Forge Alchemy process wrappers in Dafny

Sound Forge Alchemy drives three Python helper scripts as external ports:

- `spotify_dl.py` reads a Spotify URL and turns a playlist's embed page into track records. It also picks a YouTube search result and plans a yt-dlp download.
- `demucs_runner.py` launches Demucs for stem separation. It relays the progress that Demucs prints on stderr, then checks that every expected stem file was written.
- `analyzer.py` parses and validates a comma-separated feature request. It runs the selected librosa extractors and labels the musical key from a 12-bin chroma mean.

This project models the logic inside these wrappers that does not depend on a library:

- the URL search;
- the track-record building;
- the result selection and the download option defaults;
- the Demucs command line;
- progress parsing;
- the stem lookup and count check;
- feature parsing and validation;
- extractor selection and the step-by-step building of the result dictionary;
- the key and mode decision.

The outside world becomes inputs:

- the embed-page entity and the enrichment map;
- the yt-dlp entries;
- the set of paths that exist;
- the outcome of the Demucs process and its stderr lines;
- whether the audio file exists and what loading it gives.

The Python built-ins the scripts lean on are modelled in their own modules:

- `Text`: `str.strip`, `str.split`, `split()[-1]`, `rstrip`.
- `Paths`: `os.path.join`, and `pathlib`'s `name` and `stem`.
- `PyFloat`: `float()` of a word, and `int()` of a float.

Modules and files:

| file | module | what |
|---|---|---|
| `wrappers.dfy` | `Wrappers` | `Option` and `Result` |
| `text.dfy` | `Text` | whitespace as `str.isspace` defines it; `strip`, `split`, last word |
| `paths.dfy` | `Paths` | POSIX `os.path.join`; `Path.name` and `Path.stem` |
| `pyfloat.dfy` | `PyFloat` | `float(word)` as exact reals, with `inf`/`nan`; `int()` truncation |
| `spotify_dl.dfy` | `SpotifyDl` | URL search, download checks and defaults, result selection, playlist records |
| `demucs_runner.dfy` | `DemucsRunner` | command, progress parsing, stem lookup, the whole `run_demucs` outcome |
| `analyzer.dfy` | `Analyzer` | feature list, extractor selection, key detection, result dictionary, exit outcome |

Loops that change state in the source are methods. Each method is proved against a function that specifies it, and the source's promises are proved as lemmas about that function:

- `SearchYoutube`;
- `FetchPlaylistMetadata`;
- `CollectProgress`;
- `LocateStems`;
- `RunDemucs`;
- `AnalyzeAudio`;
- `RunAnalyzer`.

The Demucs progress loop is modelled as written. A stderr word such as `inf` reads as an infinite float, and `int()` of it raises `OverflowError`. The loop's own handler does not catch that error, so the loop stops and the run fails with the error's message (`ProgressAsWritten`, `CollectProgress`, `RaisingLineFailsRun`). The reading that skips such a word is kept as `Percents`. The two agree on every stream where no line raises (`AsWrittenWithoutRaise`); see "## Findings".

## Model

| member | source | states |
|---|---|---|
| Text.TrimStart | priv/python/demucs_runner.py:85 | `lstrip` leaves a suffix of the text that does not start with whitespace |
| Text.TrimStartCutsSpace | priv/python/demucs_runner.py:85 | everything `lstrip` cuts off is whitespace |
| Text.TrimEnd | priv/python/demucs_runner.py:85 | `rstrip` leaves a prefix of the text that does not end in whitespace |
| Text.TrimEndCutsSpace | priv/python/demucs_runner.py:85 | everything `rstrip` cuts off is whitespace |
| Text.Strip | priv/python/analyzer.py:294 | `strip()` never lengthens the text and leaves neither end as whitespace |
| Text.StripIsInfix | priv/python/spotify_dl.py:187 | the stripped text sits in the original right after its leading whitespace, with only whitespace around it |
| Text.StripAllAt | priv/python/analyzer.py:294 | the k-th element of the stripped list is the k-th string stripped |
| Text.StripAllStripped | priv/python/analyzer.py:294 | every element of the stripped list has neither end as whitespace |
| Text.StripAllAppend | priv/python/spotify_dl.py:187 | stripping a list keeps its order: the result for a concatenation is the concatenation of the results |
| Text.StripAllMembers | priv/python/spotify_dl.py:187 | the stripped list holds exactly the stripped parts |
| Text.StripAllAvoids | priv/python/analyzer.py:294 | a character absent from every string is absent from every stripped one |
| Text.StripAllInfix | priv/python/analyzer.py:294 | each stripped string sits in its original after the leading whitespace, with only whitespace after it |
| Text.InfixAvoids | priv/python/analyzer.py:294 | an infix of text lacking a character lacks it too |
| Text.StripKeepsStripped | priv/python/spotify_dl.py:187 | text without whitespace at either end is left unchanged by `strip()` |
| Text.StripIdempotent | priv/python/spotify_dl.py:187 | stripping twice is the same as stripping once |
| Text.StripCleanEnd | priv/python/demucs_runner.py:85 | text that does not end in whitespace only loses its leading whitespace to `strip()` |
| Text.Split | priv/python/analyzer.py:294 | `split(sep)` yields at least one part, no part holds the separator, and joining the parts gives back the text |
| Text.SplitJoin | priv/python/analyzer.py:294 | splitting the join of separator-free parts gives those parts back |
| Text.JoinInjective | priv/python/analyzer.py:294 | two separator-free part lists with the same join are equal |
| Text.SeparatorAfterHead | priv/python/demucs_runner.py:83 | with two or more parts, the joined text is the first part, then the separator, then the join of the rest |
| Text.TrailingWord | priv/python/demucs_runner.py:85 | the longest whitespace-free suffix, preceded by whitespace or the start |
| Text.LastWord | priv/python/demucs_runner.py:85 | `split()[-1]` raises (`None`) exactly when the text is all whitespace; otherwise it returns a non-empty whitespace-free word |
| Text.LastWordIsLast | priv/python/demucs_runner.py:85 | the word found starts at the text's start or after whitespace, and only whitespace follows it |
| Text.FinalWordInInfix | priv/python/demucs_runner.py:85 | the final word of the stripped text is a final word of the text itself |
| Text.AllSpaceInfix | priv/python/demucs_runner.py:85 | text around a stripped infix is blank exactly when the infix is |
| Text.HeadOfSplit | priv/python/demucs_runner.py:83-85 | the first piece of `split(sep)` is the text before the first separator, or the whole text when there is none |
| Text.RStrip | priv/python/spotify_dl.py:298 | `rstrip(chars)` removes the longest suffix made of `chars`: a prefix remains, all removed characters are in `chars`, and the last kept one is not |
| Paths.JoinPath | priv/python/demucs_runner.py:124 | `os.path.join`: an absolute part replaces the base; otherwise the base is kept as a prefix and followed by the part, with one `/` between exactly when the base is non-empty and does not already end in `/` |
| Paths.JoinPathEndsWithPart | priv/python/demucs_runner.py:142 | a joined path ends with the part joined on |
| Paths.Components | priv/python/demucs_runner.py:123 | the kept path components are non-empty, not `.`, and taken from the split path |
| Paths.ComponentsAppend | priv/python/demucs_runner.py:123 | components keep their order: those of two runs of pieces are the first run's followed by the second's |
| Paths.ComponentsOne | priv/python/demucs_runner.py:123 | a single piece is kept exactly when it is neither empty nor `.` |
| Paths.NoComponents | priv/python/demucs_runner.py:123 | there are no components exactly when every piece is empty or `.` |
| Paths.LastComponent | priv/python/demucs_runner.py:123 | the last component is a piece followed only by empty or `.` pieces, and the lemma gives its index |
| Paths.PathName | priv/python/demucs_runner.py:123 | `Path.name` holds no `/` and is not `.` |
| Paths.PathNameIsLastPiece | priv/python/demucs_runner.py:123 | `Path.name` is the last `/`-piece that is neither empty nor `.`, and `""` exactly when there is none |
| Paths.LastPiece | priv/python/demucs_runner.py:123 | the same, for any list of pieces and the last of their components |
| Paths.LastIndexOf | priv/python/demucs_runner.py:123 | `rfind`: absent exactly when the character does not occur; otherwise the index of the last occurrence |
| Paths.StemOf | priv/python/demucs_runner.py:123 | `Path.stem` is the name without its last suffix; it is the whole name exactly when the name is empty, has no dot after its first character, or ends in a dot |
| Text.SplitAround | priv/python/demucs_runner.py:124 | splitting at a separator distributes over the two sides of that separator |
| Paths.NameOfJoin | priv/python/demucs_runner.py:142-149 | joining a plain name onto any base makes that name the final path component |
| Paths.JoinComponents | priv/python/demucs_runner.py:124 | joining a relative part gives the base's components followed by the part's |
| Paths.SlashComponents | priv/python/demucs_runner.py:124 | a `/` between two texts separates their components |
| Paths.TrailingSlashComponents | priv/python/demucs_runner.py:124 | a trailing `/` adds no component |
| Paths.PlainNameComponents | priv/python/demucs_runner.py:124 | a plain name is its own single component |
| PyFloat.DigitsValue | priv/python/demucs_runner.py:86 | a run of n digits denotes a number below 10^n |
| PyFloat.FractionValue | priv/python/demucs_runner.py:86 | the digits after a decimal point denote a value in [0, 1) |
| PyFloat.ExponentMark | priv/python/demucs_runner.py:86 | the index of the first `e`/`E`, or the length when there is none |
| PyFloat.ParseMantissa | priv/python/demucs_runner.py:86 | an accepted mantissa is non-negative |
| PyFloat.MantissaWithPoint | priv/python/demucs_runner.py:86 | `<digits>.<digits>` (either side may be empty, not both) reads as the whole part plus the fraction |
| PyFloat.ParseUnsigned | priv/python/demucs_runner.py:86 | an unsigned decimal is never infinite or NaN, and is non-negative when finite |
| PyFloat.MarkAfterMantissa | priv/python/demucs_runner.py:86 | the exponent mark is the first `e` after a mantissa without one |
| PyFloat.UnsignedWithExponent | priv/python/demucs_runner.py:86 | a mantissa with an exponent reads as the mantissa's value scaled by that exponent |
| PyFloat.ExponentOfDigits | priv/python/demucs_runner.py:86 | an unsigned exponent reads as the number its digits denote |
| PyFloat.NegativeExponentOfDigits | priv/python/demucs_runner.py:86 | `-<digits>` reads as minus that number |
| PyFloat.PositiveExponentScales | priv/python/demucs_runner.py:86 | `<mantissa>e<digits>` is the mantissa scaled up by the digits' value |
| PyFloat.NegativeExponentScales | priv/python/demucs_runner.py:86 | `<mantissa>e-<digits>` is the mantissa divided by ten to the digits' value |
| PyFloat.ScaleUp | priv/python/demucs_runner.py:86 | scaling by a natural power multiplies by ten to that power |
| PyFloat.ScaleDown | priv/python/demucs_runner.py:86 | scaling by a negative power divides by ten to its magnitude |
| PyFloat.Trunc | priv/python/demucs_runner.py:86 | `int(x)` truncates toward zero: the result lies within 1 of `x`, on `x`'s side of zero |
| PyFloat.NatString | priv/python/demucs_runner.py:83-86 | a rendered natural number is a non-empty run of digits |
| PyFloat.NatStringValue | priv/python/demucs_runner.py:90 | the digits of a rendered natural number denote that number |
| PyFloat.DigitsParse | priv/python/demucs_runner.py:86 | a plain run of digits reads as the whole number it denotes |
| PyFloat.NatStringParses | priv/python/demucs_runner.py:86-90 | `float()` of a rendered natural number gives that number back |
| PyFloat.NegativeSign | priv/python/demucs_runner.py:86 | a leading minus negates what the rest of the word denotes |
| SpotifyDl.AlnumPrefix | priv/python/spotify_dl.py:56 | the greedy `[a-zA-Z0-9]+` run: an alphanumeric prefix, not followed by another alphanumeric character |
| SpotifyDl.TypeAt | priv/python/spotify_dl.py:56 | the alternative `(track\|album\|playlist)/` that opens the text, or none when no alternative does |
| SpotifyDl.AlnumPrefixUnique | priv/python/spotify_dl.py:56 | a maximal alphanumeric prefix is what the greedy run takes |
| SpotifyDl.MatchAtSound | priv/python/spotify_dl.py:56-57 | what the anchored pattern finds at a position is an occurrence of `spotify.com/<type>/<id>` there |
| SpotifyDl.MatchAtComplete | priv/python/spotify_dl.py:56-57 | every occurrence at a position is exactly what the anchored pattern finds there |
| SpotifyDl.MatchAtIsOccurrence | priv/python/spotify_dl.py:56-57 | the anchored pattern and the reference reading agree, in both directions |
| SpotifyDl.FirstMatch | priv/python/spotify_dl.py:57 | the first position with a match, with no match before it; or none at all |
| SpotifyDl.ExtractSpotifyInfo | priv/python/spotify_dl.py:54-60 | `(None, None)` exactly when no occurrence exists anywhere; otherwise the type and maximal id of an occurrence with none before it (the leftmost) |
| SpotifyDl.CheckDownloadUrl | priv/python/spotify_dl.py:265-273 | an unparsable URL is refused as invalid and a non-track URL as unsupported; otherwise the track id is passed on |
| SpotifyDl.Or | priv/python/spotify_dl.py:293-295 | Python's `a or b` on strings |
| SpotifyDl.PlanDownload | priv/python/spotify_dl.py:292-300 | the template defaults to the song id and the format to `mp3`; the bitrate loses exactly its trailing `k`/`K` run; the output path and the yt-dlp pattern are `<template>.<format>` and `<template>.%(ext)s` joined onto the output directory |
| SpotifyDl.OutputPathInDir | priv/python/spotify_dl.py:300 | the output path's components are the output directory's followed by `<template>.<format>` |
| SpotifyDl.DefaultBitrateIs320 | priv/python/spotify_dl.py:295-298 | with no options given, the encoder gets bitrate `320` |
| SpotifyDl.OutputFileName | priv/python/spotify_dl.py:300 | the output path's file name is `<template>.<format>` |
| SpotifyDl.Entries | priv/python/spotify_dl.py:243 | falsy entries are dropped and every present entry is kept |
| SpotifyDl.EntriesAppend | priv/python/spotify_dl.py:243 | the filter keeps the order of the results |
| SpotifyDl.EntriesOne | priv/python/spotify_dl.py:243 | one result is kept exactly when it is present (truthy) |
| SpotifyDl.SearchYoutube | priv/python/spotify_dl.py:240-257 | no info or no entries gives nothing. With a hint and several entries, the first entry with a known duration under 10 s from the hint is chosen, else the first entry |
| SpotifyDl.TrackIdOf | priv/python/spotify_dl.py:147 | the id is the colon-free suffix after the uri's last `:` |
| SpotifyDl.NonBlank | priv/python/spotify_dl.py:187 | the filter never lengthens the list |
| SpotifyDl.NonBlankAppend | priv/python/spotify_dl.py:187 | the filter keeps order |
| SpotifyDl.NonBlankMembers | priv/python/spotify_dl.py:187 | the filter keeps exactly the non-empty strings |
| SpotifyDl.NonBlankStripped | priv/python/spotify_dl.py:187 | every kept part is stripped and non-empty |
| SpotifyDl.NonBlankStrippedOne | priv/python/spotify_dl.py:187 | one part is kept, stripped, exactly when it is not blank |
| SpotifyDl.NonBlankStrippedAppend | priv/python/spotify_dl.py:187 | parts are kept in order: the result for a concatenation is the concatenation of the results |
| SpotifyDl.NonBlankStrippedMembers | priv/python/spotify_dl.py:187 | the kept strings are exactly the non-empty stripped parts |
| SpotifyDl.SplitArtists | priv/python/spotify_dl.py:187 | every artist is a stripped, non-empty comma part of the subtitle; order and membership come from the `NonBlankStripped` lemmas on the comma split |
| SpotifyDl.EmbedTracks | priv/python/spotify_dl.py:143-149 | one triple per item with a `spotify:track:` uri, in list order, carrying the item's index in the whole list and its id; no such item is missed |
| SpotifyDl.FetchPlaylistMetadata | priv/python/spotify_dl.py:137-200 | the playlist info from the entity, and the records built from the embed tracks in order (the method's two loops against `EmbedTracks` and `Builds`) |
| SpotifyDl.PlaylistTrackOrigin | priv/python/spotify_dl.py:143-149 | each record comes from a track item at index `track_number - 1`. Its id is taken from that item's uri, its url is the track URL prefix plus the id, its disc is 1, and its title and duration come from the item |
| SpotifyDl.PlaylistTracksCoverTrackItems | priv/python/spotify_dl.py:143-149 | every item with a `spotify:track:` uri yields a record, numbered with its index + 1 |
| SpotifyDl.PlaylistTracksInOrder | priv/python/spotify_dl.py:173-195 | records keep list order: track numbers strictly increase |
| SpotifyDl.NonTrackItemsSkipped | priv/python/spotify_dl.py:145-146 | a list without track uris yields no records |
| SpotifyDl.BuildTrackFallbacks | priv/python/spotify_dl.py:178-190 | the album artist is the enrichment value when non-empty, else the first stripped subtitle part, which is then also the first artist. The cover is the item's first cover source's url; the playlist cover when there is no source or that url is missing |
| SpotifyDl.PlaylistTrackSource | priv/python/spotify_dl.py:174-198 | each record is the one built from the item at `track_number - 1` |
| DemucsRunner.DemucsCommand | priv/python/demucs_runner.py:53-59 | nine arguments starting with the interpreter, `-m`, `demucs` |
| DemucsRunner.CommandReadsBack | priv/python/demucs_runner.py:53-59 | read back as Demucs' options, the command asks for mp3 output, the given model and output directory, and the one audio file |
| DemucsRunner.PercentWord | priv/python/demucs_runner.py:83-85 | the word before the first `%` is non-empty and holds no whitespace |
| DemucsRunner.PercentWordOfHead | priv/python/demucs_runner.py:83-85 | for a line with a `%`: the head is the text before the first `%`; there is no word exactly when the head is blank, and otherwise the word is the head's final whitespace-separated word |
| DemucsRunner.CorrectionOnlyOnRaisingLines | priv/python/demucs_runner.py:80-93 | the corrected reading agrees with the code on every line where the code does not raise. A percentage needs a `%` and a word before it |
| DemucsRunner.WordBeforePercent | priv/python/demucs_runner.py:83-85 | the last word before the first `%` is found whatever whitespace-ended text precedes it |
| DemucsRunner.PercentOfWord | priv/python/demucs_runner.py:83-93 | the percentage of such a line is the truncated value of that word when it is a finite number, and nothing otherwise |
| DemucsRunner.InfiniteWordRaises | priv/python/demucs_runner.py:86-92 | as written, a word that reads as infinite raises an uncaught error |
| DemucsRunner.InfPercentLine | priv/python/demucs_runner.py:86-92 | the line `inf%` raises as written, and the corrected reading skips it |
| DemucsRunner.RenderedPercentReadsBack | priv/python/demucs_runner.py:83-90 | a line `… <n>%…` reports exactly n |
| DemucsRunner.BlankBeforePercent | priv/python/demucs_runner.py:83-93 | a `%` with only whitespace before it reports nothing (the `IndexError` is caught) |
| DemucsRunner.Percents | priv/python/demucs_runner.py:78-93 | no more progress events than stderr lines |
| DemucsRunner.PercentsFromLines | priv/python/demucs_runner.py:78-93 | every progress event is the percentage of some stderr line |
| DemucsRunner.PercentsAppend | priv/python/demucs_runner.py:78-93 | the events of two stretches of stderr are the events of each, in order |
| DemucsRunner.Outcomes | priv/python/demucs_runner.py:77-93 | one loop-body outcome per stderr line, in order |
| DemucsRunner.RunOutcomes | priv/python/demucs_runner.py:77-93 | the loop as written never prints more events than it reads lines |
| DemucsRunner.EmittedPercents | priv/python/demucs_runner.py:77-93 | the corrected loop never prints more events than it reads lines |
| DemucsRunner.ProgressAsWritten | priv/python/demucs_runner.py:77-93 | the loop as written never prints more events than stderr lines |
| DemucsRunner.RunWithoutRaise | priv/python/demucs_runner.py:77-93 | with no raising outcome the loop runs to the end and prints every emitted percentage |
| DemucsRunner.RunStopsAtRaise | priv/python/demucs_runner.py:77-93 | the first raising outcome stops the loop, after the percentages emitted before it |
| DemucsRunner.RunRaisedPersists | priv/python/demucs_runner.py:77-93 | once the loop has raised, later lines change nothing |
| DemucsRunner.PercentsAreEmitted | priv/python/demucs_runner.py:77-93 | the corrected events of a stream are the percentages its lines emit |
| DemucsRunner.AsWrittenWithoutRaise | priv/python/demucs_runner.py:77-93 | on a stream with no `inf`-like line, the loop as written prints exactly the corrected events and does not raise |
| DemucsRunner.AsWrittenStopsAtRaise | priv/python/demucs_runner.py:77-93 | the first raising line stops the loop as written: the events are the corrected ones of the lines before it |
| DemucsRunner.RunStep | priv/python/demucs_runner.py:77-93 | one more line advances the loop by one turn |
| DemucsRunner.CollectProgress | priv/python/demucs_runner.py:77-93 | the loop as written: the percentages it prints, in order, and whether an `OverflowError` ended it early |
| DemucsRunner.StemTypes | priv/python/demucs_runner.py:136-139 | six distinct stems for `htdemucs_6s` (vocals, drums, bass, guitar, piano, other) and four for every other model |
| DemucsRunner.StemDirNamedAfterTrack | priv/python/demucs_runner.py:123-124 | the stem directory's last component is the input file's stem |
| DemucsRunner.StemHasNoSlash | priv/python/demucs_runner.py:123 | a path's stem holds no `/` |
| DemucsRunner.StemDirComponents | priv/python/demucs_runner.py:123-124 | the stem directory's components are the output directory's, then the model's, then the track's stem; for a plain model name it ends in `<model>/<stem>` |
| DemucsRunner.ResolveStem | priv/python/demucs_runner.py:141-149 | `<stem>.mp3` if it exists, else the bare `<stem>` if it exists, else nothing; whatever is found exists |
| DemucsRunner.ResolvedStemFileName | priv/python/demucs_runner.py:142-149 | a resolved stem file is named `<stem>.mp3` or `<stem>` |
| DemucsRunner.StemEntry | priv/python/demucs_runner.py:143-149 | a stem gets a dict entry exactly when it resolves, holding the path it resolved to |
| DemucsRunner.FoundStems | priv/python/demucs_runner.py:141-149 | no more entries than expected stems |
| DemucsRunner.FoundStemsAppend | priv/python/demucs_runner.py:141-149 | the lookup keeps the stem order: the entries for two runs of types are the first run's followed by the second's |
| DemucsRunner.FoundStemsOne | priv/python/demucs_runner.py:141-149 | the lookup of one stem type is that type's own entry, present exactly when the type resolves to an existing file |
| DemucsRunner.FoundStemNames | priv/python/demucs_runner.py:141-157 | a stem is named among the found ones exactly when it is expected and resolves |
| DemucsRunner.FoundStemsResolve | priv/python/demucs_runner.py:141-149 | every entry sits at the path the lookup rule picks for its stem |
| DemucsRunner.AllStemsFound | priv/python/demucs_runner.py:152-153 | the count matches exactly when every expected stem resolves |
| DemucsRunner.FoundStemsInOrder | priv/python/demucs_runner.py:141-153 | when all are found, the entries follow the stem order |
| DemucsRunner.LocateStems | priv/python/demucs_runner.py:135-149 | the lookup loop builds exactly `FoundStems` |
| DemucsRunner.StemNames | priv/python/demucs_runner.py:157 | the error lists the found stems' names in order |
| DemucsRunner.StemNamesAppend | priv/python/demucs_runner.py:157 | the names of two runs of entries are those of each, in order |
| DemucsRunner.RunDemucs | priv/python/demucs_runner.py:20-168 | the wrapper's report: the command it launched, the progress events and the result or the error (`DemucsOutcome`, `DemucsProgress`), with a raising stderr line failing the run before the exit code is looked at |
| DemucsRunner.FirstRaisingLine | priv/python/demucs_runner.py:77-93 | of the lines that raise, the first |
| DemucsRunner.RaisingLineRaises | priv/python/demucs_runner.py:77-93 | a stream with a raising line makes the loop as written raise |
| DemucsRunner.RaisedRunFails | priv/python/demucs_runner.py:77-120 | a raising loop fails the run with the `OverflowError` message |
| DemucsRunner.RaisingLineFailsRun | priv/python/demucs_runner.py:77-120 | a stderr line whose word reads as an infinity fails the run as "execution failed" whatever the exit code and the stems |
| DemucsRunner.RaisingLineStopsProgress | priv/python/demucs_runner.py:77-93 | the progress of such a run is `0` and then the corrected events of the lines before the first raising one |
| DemucsRunner.ProgressWithoutRaise | priv/python/demucs_runner.py:61-93 | with no raising line, the progress is `0` and then every corrected event |
| DemucsRunner.StemsSuccess | priv/python/demucs_runner.py:126-168 | a success reports the model and stem directory unchanged, one entry per expected stem in order, each at the path the lookup rule picks |
| DemucsRunner.StemsSuccessIff | priv/python/demucs_runner.py:152-160 | success exactly when every stem resolves; a failure names the expected count, the found count and the found stems |
| DemucsRunner.RunSuccess | priv/python/demucs_runner.py:33-168 | success needs the audio file, the output directory, no raising stderr line and a zero exit code; the result is then the stem check's |
| DemucsRunner.Mp3FilesPreferred | priv/python/demucs_runner.py:142-144 | when every `.mp3` exists, every stem maps to its `.mp3` path |
| Analyzer.ParseFeatures | priv/python/analyzer.py:294 | one stripped, comma-free name per comma-separated piece |
| Analyzer.ParseFeaturesPieces | priv/python/analyzer.py:294 | the k-th name is the k-th comma piece with only its leading and trailing whitespace cut |
| Analyzer.ParseJoinedFeatures | priv/python/analyzer.py:294 | parsing the comma-join of plain names gives the names back |
| Analyzer.DefaultRequest | priv/python/analyzer.py:280 | the default request parses to tempo, key, energy |
| Analyzer.InvalidNames | priv/python/analyzer.py:297-298 | exactly the requested names outside the seven valid ones |
| Analyzer.ValidateFeatures | priv/python/analyzer.py:297-305 | accepted exactly when every name is valid; a refusal lists exactly the invalid names, and there is at least one |
| Analyzer.EmptyPieceRefused | priv/python/analyzer.py:294-305 | an empty comma piece (as in `tempo,,key`) is refused as the invalid name `""` |
| Analyzer.ExtractorNamed | priv/python/analyzer.py:236-252 | the extractor a name asks for; none for `all` or an invalid name |
| Analyzer.NamesIdentifyExtractors | priv/python/analyzer.py:236-252 | each extractor's name asks for that extractor |
| Analyzer.AllRunsEverything | priv/python/analyzer.py:233-252 | with `all` requested, every extractor runs |
| Analyzer.RunsExactlyRequested | priv/python/analyzer.py:233-252 | without `all`, an extractor runs exactly when its name is requested |
| Analyzer.ArgmaxIsFirstMaximum | priv/python/analyzer.py:73 | the argmax holds the largest value, and every earlier value is strictly smaller |
| Analyzer.RollMovesRight | priv/python/analyzer.py:84-85 | `np.roll` moves each element p places right, wrapping the last p to the front |
| Analyzer.RolledTemplate | priv/python/analyzer.py:84-85 | correlating the rolled template equals correlating the template with the chroma read from the tonic on |
| Analyzer.MajorMinusMinor | priv/python/analyzer.py:80-81 | the two templates differ only at degrees 3, 4, 8, 9, 10 and 11 |
| Analyzer.DetectKey | priv/python/analyzer.py:70-94 | the key is `<pitch class> <mode>`, the mode is major or minor, and the pitch class is one of the twelve names |
| Analyzer.TonicIsFirstStrongest | priv/python/analyzer.py:73-93 | the pitch class is the name of the first strongest chroma bin |
| Analyzer.ModeByScaleDegrees | priv/python/analyzer.py:84-87 | major exactly when the major third, sixth and seventh above the tonic together strictly outweigh the minor ones; a tie gives minor |
| Analyzer.FlatChromaIsCMinor | priv/python/analyzer.py:73-88 | a flat chroma vector is labelled C minor |
| Analyzer.KeyLabelSplits | priv/python/analyzer.py:88 | splitting the key at its space gives the pitch class and the mode |
| Analyzer.BaseEntries | priv/python/analyzer.py:226-230 | the starting dictionary holds exactly duration, sample rate and sample count |
| Analyzer.TempoEntries | priv/python/analyzer.py:48-52 | exactly the tempo extractor's keys |
| Analyzer.KeyEntries | priv/python/analyzer.py:90-95 | exactly the key extractor's keys |
| Analyzer.EnergyEntries | priv/python/analyzer.py:115-121 | exactly the energy extractor's keys |
| Analyzer.SpectralEntries | priv/python/analyzer.py:147-154 | exactly the spectral extractor's keys |
| Analyzer.MfccEntries | priv/python/analyzer.py:171-175 | exactly the MFCC extractor's keys |
| Analyzer.ChromaEntries | priv/python/analyzer.py:194-198 | exactly the chroma extractor's keys |
| Analyzer.UpdateStep | priv/python/analyzer.py:236-252 | one guarded `update` takes the dictionary after n updates to the one after n + 1 |
| Analyzer.ReportAfterHolds | priv/python/analyzer.py:226-252 | after n guarded updates the dictionary holds the base keys and the keys of the running extractors among the first n, with their values |
| Analyzer.AnalyzeAudio | priv/python/analyzer.py:201-254 | a missing file and a failed load are refused with their messages; otherwise the result reports the request |
| Analyzer.BaseAlwaysReported | priv/python/analyzer.py:226-230 | duration, sample rate and sample count are always in the result |
| Analyzer.ReportsDetermined | priv/python/analyzer.py:226-254 | the request and the audio fix the result completely |
| Analyzer.KeyAgreesWithChroma | priv/python/analyzer.py:67-95 | when both key and chroma run, the reported pitch class names the argmax of the reported `chroma_stft` |
| Analyzer.ExitCode | priv/python/analyzer.py:299-331 | exit status 0 exactly for a printed result, 1 otherwise |
| Analyzer.RunAnalyzer | priv/python/analyzer.py:294-331 | invalid names are refused before any analysis; then a missing file, then an unloadable file; otherwise the printed result reports the request |

## Left out

- The network: the Spotify API, the embed-page fetch, and the `__NEXT_DATA__` regex and JSON extraction. The embed entity and the enrichment map are inputs.
- `album_map`: how it is filled is not modelled; it comes in as a map.
- yt-dlp: the search and the download are not modelled; the search's entries are an input. The `ytsearch5:` query string is not modelled either.
- Rate-limit sleeps.
- `fetch_track_metadata`, `fetch_album_metadata` and `cmd_metadata` are not part of this model. They are plain field copies of API responses.
- `cmd_download` after planning is not modelled: the search query text, the status messages, the yt-dlp options, and the glob fallback for the output file.
- The subprocess and the filesystem:
  - Paths that exist are a set.
  - The process outcome and its stderr lines are an input.
  - `os.makedirs` failing is an input.
  - `os.path.abspath` and `tempfile.mkdtemp` for the output directory are not modelled; the directory comes in as a string.
- librosa loading and every numeric feature (means, variances, beat times, MFCCs, the key confidence ratio) come in as given reals.
- IEEE floating point: chroma values and parsed floats are exact reals.
- `np.argmax` on NaN is not modelled.
- PyFloat.ParseFloat does not model underscores in digits, overflow of huge exponents to infinity, or signed `nan` details beyond `NotANumber`. It reads only ASCII digits: Python also accepts other Unicode decimal digits (`float("٤٥") == 45.0`), which the model reads as `Malformed`.
- argparse and JSON printing are not modelled.
  - `sys.exit` is modelled as outcome values and `ExitCode`.
  - `--output json|pretty` only changes the formatting, so it is not modelled.
  - argparse's `choices` check on `--model` is not modelled: any model name is accepted, as `run_demucs` itself does.
- Analyzer.RunAnalyzer: does not model the generic `except Exception` branch ("Analysis failed"), because the modelled extractors cannot raise.
- Missing dictionary keys read as the defaults the source's `.get` calls give (`""`, `0`, an empty list). A present-but-`None` value is not distinguished.
- SpotifyDl.SearchYoutube: a missing duration and a missing hint are both `0.0`, which is falsy in Python as well.
- `batch_cover_art.py` is not part of this model: it is concurrent HTTP fetching.
- `mock_spotify_dl.py` is not part of this model: it is a test fixture.

## Findings

| source | as written | input that shows it | evidently intended | confidence | as-written member | corrected member |
|---|---|---|---|---|---|---|
| priv/python/demucs_runner.py:86-93 | `int(float(percent_str))` raises `OverflowError` for `inf`, which `except (ValueError, IndexError)` does not catch, so the whole run ends as "Demucs execution failed" | the stderr line `inf%` | a line whose word cannot become a percentage is skipped, like other unparsable words | low, not executed | DemucsRunner.RaisingLineFailsRun | DemucsRunner.PercentOfWord |
