# Amazon Polly text-to-speech for MkDocs, modelled in Dafny

The plugin hooks into MkDocs' `on_page_markdown` event. A page opts in with a
truthy `generate_audio` entry in its front matter. The plugin then:

- cleans the page text by removing every `<!-- more -->` marker and stripping whitespace;
- asks Amazon Polly to speak that text, once, into
  `<site_dir>/<output_dir>/<page path with .mp3 for its extension>`;
- puts an HTML `<audio>` tag pointing at `/<output_dir>/<that file name>`
  right after the page's first marker.

The model has three modules:

- `PyStr` (`pystr.dfy`) gives the Python string methods the hook relies on, with their exact
  semantics: `find`, the single left-to-right pass of `replace`, `replace(..., 1)`, and
  `strip` with CPython's `isspace` set.
- `PosixPath` (`posixpath.dfy`) gives `basename`, `splitext` (leading dots of the base name
  start no extension) and two-argument `join` exactly as `posixpath` defines them, over the
  one-character form of `str.rfind` that they use.
- `Plugin` (`plugin.dfy`) holds the rest:
  - the page, the options, the speech request and the four outcomes of asking the service;
  - `OnPage`, a function stating what one call does to the page text, to the set of existing
    files and to the service;
  - `AmazonPollyTTSPlugin.OnPageMarkdown`, the step-by-step hook. It works over a
    `FileSystem` object (the set of existing paths) and a `PollyClient` object (the service
    as a function, plus the log of requests sent), and it is proved to do what `OnPage`
    says;
  - lemmas about `OnPage` and the helpers.

Two behaviours of the code are worth knowing:

- A response without an `AudioStream` entry only logs an error (`plugin.py:56-57`).
  Execution then reaches the tag insertion, so such a page is tagged even though no file is
  written (`NoAudioStreamStillTags`).
- `open(audio_path, "wb")` creates the file before the stream is read (`plugin.py:53-54`).
  A read or write that raises is caught by the handler at lines 59-61. So the page comes back
  unchanged, but an (empty or partial) audio file is left behind, and every later build takes
  it as a finished file (the `BrokenStream` outcome, `BrokenStreamLeavesArtifact`).

## Model

| member | source | states |
|---|---|---|
| PyStr.Find | mkdocs-tts-amazon-polly/mkdocs_tts_amazon_polly/plugin.py:64 | `str.find`; its contract is stated by `FindSpec` (lowest occurrence, or -1 exactly when there is none) |
| PyStr.FindFromSpec | mkdocs-tts-amazon-polly/mkdocs_tts_amazon_polly/plugin.py:64 | the scan behind `str.find` returns the first occurrence at or after its start, or -1 exactly when there is none |
| PyStr.FindSpec | mkdocs-tts-amazon-polly/mkdocs_tts_amazon_polly/plugin.py:64 | `Find` returns the lowest index where the pattern occurs, and -1 exactly when it occurs nowhere |
| PyStr.FindShift | mkdocs-tts-amazon-polly/mkdocs_tts_amazon_polly/plugin.py:32 | searching text that does not start with the pattern is searching its tail, shifted by one |
| PyStr.FindIs | mkdocs-tts-amazon-polly/mkdocs_tts_amazon_polly/plugin.py:64 | an occurrence with none before it is what `find` returns |
| PyStr.FindNone | mkdocs-tts-amazon-polly/mkdocs_tts_amazon_polly/plugin.py:64 | with no occurrence at all, `find` returns -1 |
| PyStr.FindFound | mkdocs-tts-amazon-polly/mkdocs_tts_amazon_polly/plugin.py:64 | where `find` succeeds, the pattern is at that index |
| PyStr.ReplaceAll | mkdocs-tts-amazon-polly/mkdocs_tts_amazon_polly/plugin.py:32 | `str.replace` as one left-to-right pass; its contract is stated by `ReplaceAllSkip`, `RemovalAllSpaceIff` and `CleaningKeepsNestedMarker` |
| PyStr.ReplaceFirst | mkdocs-tts-amazon-polly/mkdocs_tts_amazon_polly/plugin.py:64 | `str.replace(..., 1)`; its contract is stated by `ReplaceFirstAppends` and `ReplaceFirstKeepsFirst` |
| PyStr.IsSpace | mkdocs-tts-amazon-polly/mkdocs_tts_amazon_polly/plugin.py:32 | CPython's `str.isspace` set; `LStrip`, `RStrip` and `StripEmptyIff` state what stripping does with it |
| PyStr.Strip | mkdocs-tts-amazon-polly/mkdocs_tts_amazon_polly/plugin.py:32 | `str.strip()`; its contract is stated by `StripIsSlice`, `StripSpaceAround`, `StripEnds`, `StripKeeps` and `StripEmptyIff` |
| PyStr.LStrip | mkdocs-tts-amazon-polly/mkdocs_tts_amazon_polly/plugin.py:32 | the result is a suffix of the text, all that was dropped is whitespace, and it does not start with whitespace |
| PyStr.RStrip | mkdocs-tts-amazon-polly/mkdocs_tts_amazon_polly/plugin.py:32 | the result is a prefix of the text, all that was dropped is whitespace, and it does not end with whitespace |
| PyStr.StripIsSlice | mkdocs-tts-amazon-polly/mkdocs_tts_amazon_polly/plugin.py:32 | `strip()` returns a contiguous slice of the text |
| PyStr.StripSpaceAround | mkdocs-tts-amazon-polly/mkdocs_tts_amazon_polly/plugin.py:32 | only whitespace lies before and after that slice |
| PyStr.StripEnds | mkdocs-tts-amazon-polly/mkdocs_tts_amazon_polly/plugin.py:32 | the stripped text neither begins nor ends with whitespace |
| PyStr.StripKeeps | mkdocs-tts-amazon-polly/mkdocs_tts_amazon_polly/plugin.py:32 | text that neither begins nor ends with whitespace is unchanged by `strip()` |
| PyStr.StripEmptyIff | mkdocs-tts-amazon-polly/mkdocs_tts_amazon_polly/plugin.py:32-33 | `strip()` leaves nothing exactly when the text is all whitespace |
| PyStr.ReplaceAllSkip | mkdocs-tts-amazon-polly/mkdocs_tts_amazon_polly/plugin.py:32 | `replace` keeps a first character that starts no occurrence and goes on with the rest |
| PyStr.SpacesThenCopies | mkdocs-tts-amazon-polly/mkdocs_tts_amazon_polly/plugin.py:32-33 | whitespace followed by whitespace-and-markers is whitespace-and-markers |
| PyStr.AllSpaceCopies | mkdocs-tts-amazon-polly/mkdocs_tts_amazon_polly/plugin.py:32-33 | all-whitespace text is whitespace-and-markers |
| PyStr.RemovalOfCopiesIsSpace | mkdocs-tts-amazon-polly/mkdocs_tts_amazon_polly/plugin.py:32-33 | removing the markers from text made of whitespace and markers leaves whitespace |
| PyStr.SpaceAfterRemovalIsCopies | mkdocs-tts-amazon-polly/mkdocs_tts_amazon_polly/plugin.py:32-33 | text that is whitespace once its markers are removed is made of whitespace and markers |
| PyStr.RemovalAllSpaceIff | mkdocs-tts-amazon-polly/mkdocs_tts_amazon_polly/plugin.py:32-33 | for a pattern not starting with whitespace, removing it leaves only whitespace exactly when the text is whitespace and copies of the pattern |
| PyStr.FindPrefix | mkdocs-tts-amazon-polly/mkdocs_tts_amazon_polly/plugin.py:64 | text appended after the first occurrence does not move it |
| PyStr.FindSkip | mkdocs-tts-amazon-polly/mkdocs_tts_amazon_polly/plugin.py:64 | a prefix that lacks the pattern's first character only shifts where the pattern is found |
| PyStr.FindInPrefix | mkdocs-tts-amazon-polly/mkdocs_tts_amazon_polly/plugin.py:64 | cutting the text after its first occurrence does not move it |
| PyStr.OccursAfterInsert | mkdocs-tts-amazon-polly/mkdocs_tts_amazon_polly/plugin.py:64 | text put in before an occurrence moves it by the length put in |
| PyStr.ReplaceFirstAppends | mkdocs-tts-amazon-polly/mkdocs_tts_amazon_polly/plugin.py:64 | `replace(pat, pat + extra, 1)` is the text up to and including the first occurrence, then `extra`, then the rest unchanged |
| PyStr.ReplaceFirstKeepsFirst | mkdocs-tts-amazon-polly/mkdocs_tts_amazon_polly/plugin.py:64 | after that replacement the same occurrence is still the first |
| PosixPath.RFind | mkdocs-tts-amazon-polly/mkdocs_tts_amazon_polly/plugin.py:38 | `rfind` returns the last index holding the character, or -1, with none after it |
| PosixPath.RFindIs | mkdocs-tts-amazon-polly/mkdocs_tts_amazon_polly/plugin.py:38 | an index holding the character with none after it is what `rfind` returns |
| PosixPath.Basename | mkdocs-tts-amazon-polly/mkdocs_tts_amazon_polly/plugin.py:38 | the base name is a suffix of the path and holds no `/` |
| PosixPath.BasenameIsLastComponent | mkdocs-tts-amazon-polly/mkdocs_tts_amazon_polly/plugin.py:38 | the base name is the whole path or starts right after a `/`, so with `Basename` it is the whole last component |
| PosixPath.SplitExt | mkdocs-tts-amazon-polly/mkdocs_tts_amazon_polly/plugin.py:38 | `splitext` splits the path in two parts that concatenate back to it |
| PosixPath.SplitExtShape | mkdocs-tts-amazon-polly/mkdocs_tts_amazon_polly/plugin.py:38 | the extension is empty, or one dot followed by neither dots nor separators |
| PosixPath.SplitExtFindsExtension | mkdocs-tts-amazon-polly/mkdocs_tts_amazon_polly/plugin.py:38 | there is an extension exactly when the base name has a dot with a character other than a dot before it |
| PosixPath.Join | mkdocs-tts-amazon-polly/mkdocs_tts_amazon_polly/plugin.py:39 | `join` ends with its second part; an absolute second part replaces the first; otherwise the first part is kept and at most one `/` separates them |
| PosixPath.JoinTwo | mkdocs-tts-amazon-polly/mkdocs_tts_amazon_polly/plugin.py:28-39 | joining a relative directory and a relative file onto a directory with no trailing `/` puts exactly one `/` before each |
| Plugin.GenerateAudio | mkdocs-tts-amazon-polly/mkdocs_tts_amazon_polly/plugin.py:22-23 | `page.meta.get("generate_audio", False)` is truthy; `OptOutLeavesPageAlone` and `SynthesisInvokedIff` state what it decides |
| Plugin.Truthy | mkdocs-tts-amazon-polly/mkdocs_tts_amazon_polly/plugin.py:23 | Python truthiness of a front-matter value; used by `GenerateAudio` |
| Plugin.CleanText | mkdocs-tts-amazon-polly/mkdocs_tts_amazon_polly/plugin.py:32 | the text sent to the service; `CleanTextEmptyIff`, `CleaningKeepsNestedMarker` and `GuideCleanText` state its contract |
| Plugin.AudioFilename | mkdocs-tts-amazon-polly/mkdocs_tts_amazon_polly/plugin.py:38 | the page path with `.mp3` for its extension; `AudioFilenameShape`, `AudioFilenameRelative`, `AudioFilenameCut` and `AudioFilenameKeep` state its contract |
| Plugin.ArtifactPath | mkdocs-tts-amazon-polly/mkdocs_tts_amazon_polly/plugin.py:28-39 | where the audio file goes; `ArtifactPathLayout` and `ArtifactPathAbsolute` state its contract |
| Plugin.AudioSrc | mkdocs-tts-amazon-polly/mkdocs_tts_amazon_polly/plugin.py:63 | the tag's URL; `TagSrcRoundTrip` and `ArtifactPathLayout` state its contract |
| Plugin.AudioTag | mkdocs-tts-amazon-polly/mkdocs_tts_amazon_polly/plugin.py:63 | the audio tag; `TagOpenQuote` and `TagSrcRoundTrip` state its contract |
| Plugin.InsertTag | mkdocs-tts-amazon-polly/mkdocs_tts_amazon_polly/plugin.py:64 | the tag after the first marker; `TagInsertion`, `LaterMarkersKept` and `NoMarkerNoChange` state its contract |
| Plugin.OnPage | mkdocs-tts-amazon-polly/mkdocs_tts_amazon_polly/plugin.py:18-64 | one call of the hook; `OnPageMarkdown` is proved to do what it says, and `SynthesisInvokedIff`, `EffectsAreBounded`, `OnPageSkipped`, `OnPageAsked` and the lemmas after them state its contract |
| Plugin.FileSystem.Exists | mkdocs-tts-amazon-polly/mkdocs_tts_amazon_polly/plugin.py:43 | `os.path.exists` is true exactly when the path is among the existing files |
| Plugin.FileSystem.Open | mkdocs-tts-amazon-polly/mkdocs_tts_amazon_polly/plugin.py:53 | opening for writing adds exactly that path to the existing files |
| Plugin.PollyClient.SynthesizeSpeech | mkdocs-tts-amazon-polly/mkdocs_tts_amazon_polly/plugin.py:46-48 | the response is the service's answer to the request, and exactly that request is appended to the client's log |
| Plugin.AmazonPollyTTSPlugin.constructor | mkdocs-tts-amazon-polly/mkdocs_tts_amazon_polly/plugin.py:15-16 | the plugin holds its options and a fresh client that has sent nothing |
| Plugin.AmazonPollyTTSPlugin.OnPageMarkdown | mkdocs-tts-amazon-polly/mkdocs_tts_amazon_polly/plugin.py:18-64 | the returned text, the files afterwards and the requests sent are exactly those `OnPage` gives |
| Plugin.AmazonPollyTTSPlugin.SynthesizeIfMissing | mkdocs-tts-amazon-polly/mkdocs_tts_amazon_polly/plugin.py:43-61 | an existing file means no request and no write; otherwise one request is sent, the file exists afterwards exactly when a stream arrived, and the hook goes on exactly when nothing raised |
| Plugin.OptOutLeavesPageAlone | mkdocs-tts-amazon-polly/mkdocs_tts_amazon_polly/plugin.py:22-25 | with `generate_audio` absent or falsy, the page, the files and the service are untouched |
| Plugin.MarkerEnds | mkdocs-tts-amazon-polly/mkdocs_tts_amazon_polly/plugin.py:32 | the marker neither begins nor ends with whitespace |
| Plugin.CleanTextEmptyIff | mkdocs-tts-amazon-polly/mkdocs_tts_amazon_polly/plugin.py:32-33 | the cleaned text is empty exactly when the page is whitespace and markers only |
| Plugin.EmptyContentLeavesPageAlone | mkdocs-tts-amazon-polly/mkdocs_tts_amazon_polly/plugin.py:32-35 | a page of whitespace and markers only comes back as it is, with no file written and no request sent |
| Plugin.NestedMarkersFirst | mkdocs-tts-amazon-polly/mkdocs_tts_amazon_polly/plugin.py:64 | in `<!-- <!-- more -->more -->` the first marker is the inner one, at index 5 |
| Plugin.CleaningKeepsNestedMarker | mkdocs-tts-amazon-polly/mkdocs_tts_amazon_polly/plugin.py:32 | removing the markers of `<!-- <!-- more -->more -->` makes a new marker, which is the text sent to the service |
| Plugin.AudioFilenameShape | mkdocs-tts-amazon-polly/mkdocs_tts_amazon_polly/plugin.py:38 | the audio file name is the page path with its extension, if any, replaced by `.mp3`; the cut lies in the base name, so the directories are kept |
| Plugin.AudioFilenameRelative | mkdocs-tts-amazon-polly/mkdocs_tts_amazon_polly/plugin.py:38 | a relative page path gives a relative audio file name |
| Plugin.AudioFilenameCut | mkdocs-tts-amazon-polly/mkdocs_tts_amazon_polly/plugin.py:38 | with a non-dot between the last separator and the last dot, the path is cut at that dot |
| Plugin.AudioFilenameKeep | mkdocs-tts-amazon-polly/mkdocs_tts_amazon_polly/plugin.py:38 | with only dots between them, or no dot in the base name, `.mp3` is appended to the whole path |
| Plugin.AudioFilenameNested | mkdocs-tts-amazon-polly/mkdocs_tts_amazon_polly/plugin.py:38 | `docs/guide.md` gives `docs/guide.mp3` |
| Plugin.AudioFilenameHidden | mkdocs-tts-amazon-polly/mkdocs_tts_amazon_polly/plugin.py:38 | `.bashrc` gives `.bashrc.mp3`: a leading dot starts no extension |
| Plugin.AudioFilenameHiddenWithExtension | mkdocs-tts-amazon-polly/mkdocs_tts_amazon_polly/plugin.py:38 | `dir/.hidden.md` gives `dir/.hidden.mp3` |
| Plugin.AudioFilenameDots | mkdocs-tts-amazon-polly/mkdocs_tts_amazon_polly/plugin.py:38 | `..md` gives `..md.mp3`: dots only before the last dot start no extension |
| Plugin.AudioFilenameLastExtension | mkdocs-tts-amazon-polly/mkdocs_tts_amazon_polly/plugin.py:38 | `archive.tar.gz` gives `archive.tar.mp3`: only the last extension is replaced |
| Plugin.TagOpenQuote | mkdocs-tts-amazon-polly/mkdocs_tts_amazon_polly/plugin.py:63 | the first quote of the tag opens the `src` value, which is followed by a quote and the rest of the tag |
| Plugin.QuoteClosesValue | mkdocs-tts-amazon-polly/mkdocs_tts_amazon_polly/plugin.py:63 | the closing quote is found at the end of `src` exactly when `src` holds no quote |
| Plugin.TagSrcRoundTrip | mkdocs-tts-amazon-polly/mkdocs_tts_amazon_polly/plugin.py:63 | reading the tag's first quoted value gives back `"/" + output_dir + "/" + audio_filename` exactly when neither holds a double quote |
| Plugin.QuoteInSrc | mkdocs-tts-amazon-polly/mkdocs_tts_amazon_polly/plugin.py:63 | `src` holds a quote exactly when the output directory or the file name does |
| Plugin.ArtifactPathLayout | mkdocs-tts-amazon-polly/mkdocs_tts_amazon_polly/plugin.py:28-39 | for plain relative options and path, the audio file lies at the site directory followed by the tag's `src` |
| Plugin.ArtifactPathAbsolute | mkdocs-tts-amazon-polly/mkdocs_tts_amazon_polly/plugin.py:28-39 | an absolute output directory replaces the site directory |
| Plugin.TagInsertion | mkdocs-tts-amazon-polly/mkdocs_tts_amazon_polly/plugin.py:64 | without a marker the page is unchanged; otherwise everything up to and including the first marker and everything after it are kept, a blank line and the tag go between, the length grows by 2 plus the tag's, and that marker stays the first |
| Plugin.LaterMarkersKept | mkdocs-tts-amazon-polly/mkdocs_tts_amazon_polly/plugin.py:64 | each later marker is still there, moved by the length put in |
| Plugin.SynthesisInvokedIff | mkdocs-tts-amazon-polly/mkdocs_tts_amazon_polly/plugin.py:22-48 | the service is asked exactly when the page opts in, has text and has no audio file yet, and then for the cleaned text in mp3 with the configured voice |
| Plugin.EffectsAreBounded | mkdocs-tts-amazon-polly/mkdocs_tts_amazon_polly/plugin.py:18-64 | the files grow by the page's audio file at most, and the page comes back unchanged or with its tag inserted |
| Plugin.OnPageSkipped | mkdocs-tts-amazon-polly/mkdocs_tts_amazon_polly/plugin.py:22-35 | a page that does not opt in or has no text comes back as it is, with nothing written or requested |
| Plugin.OnPageAsked | mkdocs-tts-amazon-polly/mkdocs_tts_amazon_polly/plugin.py:43-64 | when the service is asked, the page is tagged unless the call or the write raised, and the file exists once it was opened |
| Plugin.CachedArtifactSkipsSynthesis | mkdocs-tts-amazon-polly/mkdocs_tts_amazon_polly/plugin.py:43-64 | an existing audio file means no request and no write, but the tag is still inserted |
| Plugin.SynthesisRaisesLeavesPageAlone | mkdocs-tts-amazon-polly/mkdocs_tts_amazon_polly/plugin.py:45-61 | when the call raises, the page comes back unchanged and no file is written |
| Plugin.StreamAddsArtifact | mkdocs-tts-amazon-polly/mkdocs_tts_amazon_polly/plugin.py:52-64 | audio that arrives adds exactly the page's audio file, and the tag is inserted |
| Plugin.NoAudioStreamStillTags | mkdocs-tts-amazon-polly/mkdocs_tts_amazon_polly/plugin.py:52-64 | a response without audio writes nothing, yet the tag is inserted |
| Plugin.BrokenStreamLeavesArtifact | mkdocs-tts-amazon-polly/mkdocs_tts_amazon_polly/plugin.py:53-61 | a stream that fails while being written leaves the page unchanged but the audio file created |
| Plugin.SecondRunUsesCache | mkdocs-tts-amazon-polly/mkdocs_tts_amazon_polly/plugin.py:43-64 | a second build after the first left the audio file sends no request, changes no file and inserts the same tag, whatever the service would answer |
| Plugin.NoMarkerNoChange | mkdocs-tts-amazon-polly/mkdocs_tts_amazon_polly/plugin.py:64 | a page without a marker is never changed |
| Plugin.GuideMarker | mkdocs-tts-amazon-polly/mkdocs_tts_amazon_polly/plugin.py:64 | the marker of `Intro text.\n<!-- more -->\nDetails.` is found at index 12 |
| Plugin.GuideCleanText | mkdocs-tts-amazon-polly/mkdocs_tts_amazon_polly/plugin.py:32 | that page's cleaned text is `Intro text.\n\nDetails.` |
| Plugin.GuideTagged | mkdocs-tts-amazon-polly/mkdocs_tts_amazon_polly/plugin.py:64 | in that page a blank line and the tag go right after its one marker |
| Plugin.GuideTagFor | mkdocs-tts-amazon-polly/mkdocs_tts_amazon_polly/plugin.py:38-63 | with the default options the tag of `docs/guide.md` points at `/audio/docs/guide.mp3` |
| Plugin.GuideExample | mkdocs-tts-amazon-polly/mkdocs_tts_amazon_polly/plugin.py:11-64 | built with the default options and a service that returns audio, that page writes `<site>/audio/docs/guide.mp3`, sends one request for its cleaned text with voice `Matthew`, and comes back with the tag after the marker |

## Left out

- Logging (`plugin.py:7, 19-20, 24, 34, 44, 50, 55, 57, 60`): it does not affect results.
- Reading `response['ResponseMetadata']` (`plugin.py:50`): it is inside the `try`, so a missing entry is one more way to reach the exception handler. It is folded into the `Raises` outcome.
- `boto3.client("polly")` (`plugin.py:16`) and the remote call: the service is a function
  from request to outcome, given to the constructor. So the model assumes the service answers
  the same request the same way within a build.
- The audio bytes and `AudioStream.read()` (`plugin.py:54`): a write is modelled only as "the path now exists". `Stream` carries the bytes, but nothing looks at them.
- `open(audio_path, "wb")` itself raising (`plugin.py:53`) has no outcome of its own. It is inside the `try`, so the handler at lines 59-61 returns the page unchanged with no file created; that is the effect of `Raises`, which covers it.
- `os.makedirs` (`plugin.py:29, 41`), directories in general, and filesystem errors outside the `try`. Those errors propagate and abort the build; the model treats directories as always creatable.
- `os.path.exists` is membership in a set of path strings. Paths are not normalised, so `a//b` and `a/b` are different paths.
- Front-matter values other than null, booleans, integers, strings, lists and maps: floats, YAML timestamps, binary values and sets are not in `MetaValue`. A timestamp is always truthy, and binary values and sets are truthy when non-empty, as strings and lists already are.
- `PyStr.ReplaceAll` requires a non-empty pattern. Python's `replace` with an empty pattern inserts between characters, but the hook only replaces the marker.
- The MkDocs `BasePlugin` machinery, `config_scheme` validation, the `config` mapping (only `site_dir` is used) and the unused `files` argument (`plugin.py:4-5, 9-13, 18`). The options are a plain `PluginConfig`, with `DefaultConfig` holding the declared defaults.
- Concurrent builds writing the same audio file.
- `setup.py` is packaging metadata with no behaviour.
