# transcriber: feed resolution and audio acquisition

`main.py` of transcriber gets an audio file and hands it over for
transcription. The file comes from one of two places:

- **Feed branch.** `--rss-title` is given and non-empty. The feed at `--url`
  is fetched and parsed, and exactly one `<title>` tag anywhere in it must
  match the title pattern. Among the siblings that follow that title, exactly
  one `<enclosure>` tag must have a `type` containing "audio". That
  enclosure's `url` is fetched and written to a file named after the last
  `/`-separated segment of the URL.
- **Direct branch.** Otherwise the downloader fetches `--url`. The file name
  is the output template `%(id)s.%(ext)s` filled from the info the downloader
  reports.

This project models that decision logic in Dafny as pure functions. Lemmas
state what each step promises.

- `Wrappers`: `Option` and `Result`.
- `Text`: what the Python string operations that the core uses mean.
  - `Contains` is substring search, which is all a regular-expression
    search does for a literal pattern.
  - `Split` and `Join` are one-character `str.split` and `str.join`.
- `Soup`:
  - The parsed feed is a forest of `Node(name, attrs, text, children)`.
    `text` stands for bs4's `.string`: present when the tag has a single
    text child, directly or through a single child tag, and absent otherwise.
  - Positions are paths of child indices.
  - `Strainer` and `Satisfies` are bs4's name, attribute and `string=`
    filters.
  - `FindAll` is `find_all` in document (preorder) order.
  - `FindNextSiblings` is `find_next_siblings`.
- `Rss`: `raise_if_not_single`, and `parse_rss` on an already parsed feed.
  Its exceptions become `Error` values. The lemmas characterise every outcome
  by the feed's shape alone, with no reference to the filters.
- `Naming`:
  - `url.split('/')[-1]`.
  - What `Path(...)` makes of the empty string.
  - The `%`-template `OUT_TMPL` applied to the downloader's info.
- `Acquire`:
  - The branch choice of `main`, returned as a `Run`: the outside effects in
    the order they happen, and the file name or the exception.
  - The fetched feed and the downloader's info are parameters.
- `Scenarios`: small concrete feeds, each resolved end to end.

## Model

| member | source | states |
|---|---|---|
| Rss.RaiseIfNotSingle | main.py:12-16 | returns normally iff the list has exactly one element; an empty list raises NotFound(name) and only an empty list does; a longer list raises Multiple(name) and only a longer one does |
| Text.Contains | main.py:24-28 | a regex search for a literal pattern; no contract of its own, specified by Text.ContainsAtOffset |
| Text.Split | main.py:76 | `str.split` with a one-character separator: at least one part and no part holds the separator; Text.JoinSplit and Text.SplitJoin make it the inverse of joining |
| Rss.TitleFilter | main.py:24 | the `find_all('title', string=...)` filter; no contract of its own, specified by Rss.FiltersMeanWhatTheySay |
| Rss.AudioEnclosureFilter | main.py:28 | the `find_next_siblings('enclosure', type=...)` filter; no contract of its own, specified by Rss.FiltersMeanWhatTheySay |
| Rss.ParseRss | main.py:19-35 | `parse_rss` on the parsed feed; its contract states that the only exceptions are NotFound or Multiple of the pattern, NotFound or Multiple of "enclosure", and a KeyError on "url"; every outcome is characterised by Rss.TitleNotFound, Rss.TitleAmbiguous, Rss.EnclosureNotFound, Rss.EnclosureAmbiguous, Rss.EnclosureFound and Rss.SuccessMeansUnique |
| Rss.EnclosureUrl | main.py:28-35 | the enclosure half of `parse_rss` once the title is fixed; it raises only NotFound or Multiple of "enclosure" or a KeyError on "url"; Rss.OnlyTitleIsFound connects it to Rss.ParseRss |
| Naming.LastSegment | main.py:76 | `url.split('/')[-1]`; no contract of its own, specified by Naming.LastSegmentIsFinalSuffix, Naming.FinalSegmentIsUnique and Naming.LastSegmentEdgeCases |
| Acquire.Truthy | main.py:73 | Python truthiness of the optional title; no contract of its own, specified by Acquire.EmptyTitleIsDirect |
| Acquire.AcquireAudio | main.py:73-80 | `main`'s branch choice as a run; no contract of its own, specified by Acquire.FeedBranch, Acquire.DirectBranch, Acquire.EmptyTitleIsDirect and Acquire.SuccessWritesOneFile |
| Acquire.FromFeed | main.py:73-78 | the feed branch: resolution, then what follows it; no contract of its own, specified by Acquire.FeedBranch |
| Acquire.AfterResolution | main.py:74-78 | what the feed branch does with the resolution's outcome; no contract of its own, specified by Acquire.ResolutionOutcome |
| Acquire.DownloadAudio | main.py:40-53 | `download_audio`: the downloader runs and the file is `OUT_TMPL % info`; no contract of its own, specified by Acquire.DirectBranch and Naming.FormatOutTmpl |
| Rss.Message | main.py:14-16 | the exception text of each kind; its contract only spells the two texts out, and what they guarantee is stated by Rss.MessageIdentifiesName |
| Rss.MessageIdentifiesName | main.py:14-16 | two errors of the same kind with equal messages have the same name, so the message identifies the missing or repeated subject |
| Rss.MessagesCollideAcrossKinds | main.py:14-16 | a NotFound text and a Multiple text can coincide, so the name is identified only together with the kind |
| Text.ContainsAtOffset | main.py:24 | a pattern is found in a text iff it occurs at some offset of it, which is what a regex search finds for a literal pattern |
| Soup.FindAll | main.py:24 | the result lists exactly the positions whose tag passes the filter (sound and complete), strictly in document order, so each position appears once |
| Soup.FindNextSiblings | main.py:28 | every result has the same parent as the start tag, lies after it and passes the filter; every such sibling is listed; results are in increasing sibling order |
| Soup.MatchingIndicesSound | main.py:28 | each sibling index scanned lies at or after the start index, inside the sibling list, and its tag passes the filter |
| Soup.MatchingIndicesIncreasing | main.py:28 | the scanned sibling indices are strictly increasing |
| Soup.MatchingIndicesComplete | main.py:28 | every sibling from the start index on whose tag passes the filter is scanned |
| Rss.FiltersMeanWhatTheySay | main.py:24-28 | the title filter accepts exactly title tags whose text contains the pattern; the enclosure filter accepts exactly enclosure tags whose `type` is present and contains "audio" anywhere, so a tag with no `type` never passes |
| Rss.TitlesFound | main.py:24 | the title lookup lists exactly the matching title tags of the whole feed, each once, and is empty iff there is none |
| Rss.EnclosuresFound | main.py:28 | the enclosure lookup lists exactly the audio enclosures among the title's later siblings, each once, with their nodes, and is empty iff there is none |
| Rss.TitleNotFound | main.py:24-25 | no matching title anywhere gives NotFound(pattern), whatever enclosures the feed has |
| Rss.TitleAmbiguous | main.py:24-25 | two distinct matching titles anywhere give Multiple(pattern), whatever enclosures the feed has |
| Rss.OnlyTitleIsFound | main.py:24-26 | when one title alone matches, the lookup is exactly that title and resolution continues from it |
| Rss.EnclosureNotFound | main.py:28-29 | a unique title with no audio enclosure among its later siblings gives NotFound("enclosure") |
| Rss.EnclosureAmbiguous | main.py:28-29 | a unique title followed by two audio enclosures gives Multiple("enclosure"); the first is never picked |
| Rss.EnclosureFound | main.py:30-35 | a unique title followed by a unique audio enclosure gives that enclosure's `url` unchanged, or a KeyError on "url" when it has none |
| Rss.SuccessMeansUnique | main.py:19-35 | a successful resolution always comes from a unique matching title and a unique audio enclosure after it whose `url` is the result |
| Text.JoinSplit | main.py:76 | joining the parts of a split with the separator gives back the string |
| Text.SplitJoin | main.py:76 | splitting a join of separator-free parts gives back the parts |
| Naming.LastSegmentIsFinalSuffix | main.py:76 | the last segment holds no '/' and ends the URL, and what comes before it is empty or ends in '/' |
| Naming.FinalSegmentIsUnique | main.py:76 | only one string meets that description, so it fixes the last segment |
| Naming.LastSegmentEdgeCases | main.py:76 | a URL without '/' is its own last segment; a URL ending in '/' has an empty one |
| Naming.FeedAudioFile | main.py:76 | the file name is never empty and holds no '/'; it is "." for an empty URL or one ending in '/', and otherwise it is the URL's last segment |
| Naming.OutTmplIsTheTemplate | main.py:38 | the template pieces spell "%(id)s.%(ext)s" |
| Naming.Format | main.py:52 | formatting succeeds iff every field key is in the info; a failure is a KeyError on a key missing from the info |
| Naming.FormatOutTmpl | main.py:52 | the output template gives id + "." + ext; with "id" missing it raises KeyError("id"), and with only "ext" missing KeyError("ext") |
| Acquire.ResolutionOutcome | main.py:74-78 | after resolution the feed fetch comes first and the downloader is never used; an error propagates unchanged with nothing else fetched or written; a resolved URL is fetched with no status check and written to the file named after its last segment, which becomes the audio file |
| Acquire.FeedBranch | main.py:73-78 | with a non-empty title the run is exactly what follows resolving the fetched feed, and the downloader's info plays no part |
| Acquire.DirectBranch | main.py:79-80 | without a non-empty title the only effect is the downloader on the URL; the feed plays no part; the file is id + "." + ext, or the KeyError for the first key missing |
| Acquire.EmptyTitleIsDirect | main.py:73 | an empty title takes the direct branch, exactly as a missing one does |
| Acquire.SuccessWritesOneFile | main.py:73-80 | a successful feed run ends by writing the audio file, under a name without '/', from the URL the feed resolved to; a successful direct run means the info held "id" and "ext", which name the file |
| Scenarios.ScenarioUniqueMatch | main.py:19-35 | in a feed with a channel title and two episodes, "Episode 5" resolves to the URL of the enclosure beside it |
| Scenarios.ScenarioAmbiguousTitle | main.py:24-25 | "Episode" matches two episode titles and raises Multiple("Episode") |
| Scenarios.ScenarioNoEnclosureBesideTitle | main.py:28-29 | the channel title's later siblings are items, so the enclosures inside them do not count: NotFound("enclosure") |
| Scenarios.ScenarioEnclosuresOutOfReach | main.py:28-29 | an audio enclosure before the title, one nested in a sibling and one in the next item count for nothing; a video enclosure and an untyped one do not qualify either |
| Scenarios.ScenarioAmbiguousEnclosure | main.py:28-29 | two audio enclosures after the title raise Multiple("enclosure") |
| Scenarios.FileOfEpisode5 | main.py:76 | "https://x/5.m4a" is written to "5.m4a" |
| Scenarios.ScenarioFeedAcquisition | main.py:73-78 | end to end: the feed is fetched, then the enclosure, which is written to "5.m4a" |
| Scenarios.ScenarioDirectAcquisition | main.py:79-80 | without a title the downloader alone runs, and info id "clip", ext "m4a" names the file "clip.m4a" |

## Left out

- HTTP (main.py:20-21, 75). A request failure or the status check at line 21 is not modelled. The document the feed URL serves is a parameter. The enclosure fetch at line 75 has no status check, and the model has none there either.
- XML parsing (main.py:22). The parsed forest is the input. Tag names are the local names the parser reports. Namespace prefixes, text children and bs4's other node kinds are not modelled.
- Regular expressions (main.py:24, 28): a pattern is matched as a literal substring. Metacharacters in `--rss-title`, and a pattern that does not compile, are not modelled.
- The isinstance asserts (main.py:31, 33): the model's tree has only tags, and every attribute value is a single string. A multi-valued attribute is not modelled.
- download_audio (main.py:40-53): the download, the format choice and the m4a transcoding are replaced by the info dictionary the downloader returns. Its values are strings, so `%s` of a non-string value is not modelled.
- Rss.MessageIdentifiesName: only within one kind of error; Rss.MessagesCollideAcrossKinds shows that texts of different kinds can coincide.
- Naming.Format: its contract states success exactly, and failure as a missing key. The text of a success is stated, in Naming.FormatOutTmpl, only for the template the program uses.
- transcribe_audio and the call to it (main.py:55-63, 81): loading the Whisper model, transcription, the output writer and the output-directory check are not part of this model.
- argparse (main.py:66-71): the arguments are parameters. `--url` being required is a type-level fact here.
- The file write (main.py:77) appears only as an effect. Whether it succeeds is not modelled: for a URL ending in '/', for instance, the target "." is a directory.
- The progress message (main.py:78) is not modelled.
