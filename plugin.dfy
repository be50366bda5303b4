/** The page hook of the Amazon Polly text-to-speech plugin for MkDocs:
    for a page that opts in, synthesize its text to an mp3 file once and put an
    `<audio>` tag after the page's first "more" marker.

    `OnPage` states what one call does to the page text, to the set of files on
    disk and to the speech service; `AmazonPollyTTSPlugin.OnPageMarkdown` is
    the step-by-step hook, proved to behave as `OnPage` says. */
module Plugin {
  import opened PyStr
  import opened PosixPath

  datatype Option<T> = None | Some(value: T)

  /** A front-matter value, as YAML gives it to the page's metadata. */
  datatype MetaValue =
    | Null
    | Bool(b: bool)
    | Int(i: int)
    | Str(s: string)
    | List(items: seq<MetaValue>)
    | Dict(entries: map<string, MetaValue>)

  /** Python truthiness of a metadata value. */
  predicate Truthy(v: MetaValue)
  {
    match v
    case Null => false
    case Bool(b) => b
    case Int(i) => i != 0
    case Str(s) => s != []
    case List(items) => items != []
    case Dict(entries) => entries != map[]
  }

  /** `page.meta.get("generate_audio", False)` is truthy: a missing key and
      a falsy value both mean "no audio". */
  predicate GenerateAudio(meta: map<string, MetaValue>)
  {
    "generate_audio" in meta && Truthy(meta["generate_audio"])
  }

  datatype Page = Page(srcPath: string, meta: map<string, MetaValue>)

  /** The plugin's two options; the output directory is relative to the
      site directory and is also the first segment of the audio file's URL. */
  datatype PluginConfig = PluginConfig(outputDir: string, voiceId: string)

  const DefaultConfig := PluginConfig("audio", "Matthew")

  /** The arguments of one `synthesize_speech` call. */
  datatype SpeechRequest = SpeechRequest(text: string, outputFormat: string, voiceId: string)

  /** What happens when the speech service is asked for audio. */
  datatype Synthesis =
    | Raises                    // the call, reading its response metadata, or opening
                                // the output file raises, before any file is created
    | NoAudioStream             // the response has no "AudioStream" entry
    | Stream(audio: seq<bv8>)   // the response carries an audio stream that reads fine
    | BrokenStream              // there is an "AudioStream", but reading or writing it raises
                                // after the output file has been opened (and so created)

  /** What one call of the hook produces: the new page text, the files that
      exist afterwards, and the speech request made, if any. */
  datatype PageEffect = PageEffect(markdown: string, files: set<string>, request: Option<SpeechRequest>)

  const Marker := "<!-- more -->"

  /** The text sent to the speech service: every marker removed, then stripped. */
  function CleanText(markdown: string): string
  {
    Strip(ReplaceAll(markdown, Marker, ""))
  }

  /** The page's source path with its extension replaced by `.mp3`. */
  function AudioFilename(srcPath: string): string
  {
    SplitExt(srcPath).0 + ".mp3"
  }

  /** Where the audio file of a page is written. */
  function ArtifactPath(siteDir: string, config: PluginConfig, srcPath: string): string
  {
    Join(Join(siteDir, config.outputDir), AudioFilename(srcPath))
  }

  /** The URL the audio tag points at. */
  function AudioSrc(outputDir: string, filename: string): string
  {
    "/" + outputDir + "/" + filename
  }

  const TagHead := "<audio controls><source src="
  const TagTail := " type=\"audio/mpeg\"></audio>\n\n"

  /** The HTML audio tag, trailing blank line included. */
  function AudioTag(outputDir: string, filename: string): string
  {
    TagHead + "\"" + AudioSrc(outputDir, filename) + "\"" + TagTail
  }

  /** The first double-quoted attribute value of an HTML tag, as a reader of
      the tag sees it: the text between its first two `"` characters. In an
      audio tag this is the value of `src`. */
  function FirstQuotedValue(html: string): Option<string>
  {
    var open := Find(html, "\"");
    if open < 0 then None
    else
      FindFound(html, "\"");
      var rest := html[open + 1..];
      var close := Find(rest, "\"");
      if close < 0 then None
      else
        FindFound(rest, "\"");
        Some(rest[..close])
  }

  /** `markdown.replace("<!-- more -->", "<!-- more -->\n\n" + tag, 1)`. */
  function InsertTag(markdown: string, tag: string): string
  {
    ReplaceFirst(markdown, Marker, Marker + "\n\n" + tag)
  }

  /** One call of the page hook, given the files on disk and the answer the
      speech service gives if it is asked. */
  function OnPage(config: PluginConfig, markdown: string, page: Page, siteDir: string,
                  files: set<string>, answer: Synthesis): PageEffect
  {
    if !GenerateAudio(page.meta) then PageEffect(markdown, files, None)
    else
      var text := CleanText(markdown);
      if text == [] then PageEffect(markdown, files, None)
      else
        var filename := AudioFilename(page.srcPath);
        var path := ArtifactPath(siteDir, config, page.srcPath);
        var tagged := InsertTag(markdown, AudioTag(config.outputDir, filename));
        if path in files then PageEffect(tagged, files, None)
        else
          var request := SpeechRequest(text, "mp3", config.voiceId);
          match answer
          case Raises => PageEffect(markdown, files, Some(request))
          case NoAudioStream => PageEffect(tagged, files, Some(request))
          case Stream(_) => PageEffect(tagged, files + {path}, Some(request))
          case BrokenStream => PageEffect(markdown, files + {path}, Some(request))
  }

  // ---------------------------------------------------------------------
  // The outside world, as objects the hook changes.

  /** The files that exist on disk; only existence is modelled. */
  class FileSystem {
    var files: set<string>

    constructor (files: set<string>)
      ensures this.files == files
    {
      this.files := files;
    }

    /** `os.path.exists(path)`. */
    method Exists(path: string) returns (b: bool)
      ensures b <==> path in files
    {
      b := path in files;
    }

    /** `open(path, "wb")`: the file exists from then on. */
    method Open(path: string)
      modifies this
      ensures files == old(files) + {path}
    {
      files := files + {path};
    }
  }

  /** The Polly client: the remote service is the function `answer`; the
      client records each request it sends. */
  class PollyClient {
    const answer: SpeechRequest -> Synthesis
    var calls: seq<SpeechRequest>

    constructor (answer: SpeechRequest -> Synthesis)
      ensures this.answer == answer && calls == []
    {
      this.answer := answer;
      calls := [];
    }

    method SynthesizeSpeech(request: SpeechRequest) returns (response: Synthesis)
      modifies this
      ensures response == answer(request)
      ensures calls == old(calls) + [request]
    {
      response := answer(request);
      calls := calls + [request];
    }
  }

  function RequestsOf(request: Option<SpeechRequest>): seq<SpeechRequest>
  {
    if request.Some? then [request.value] else []
  }

  class AmazonPollyTTSPlugin {
    const config: PluginConfig
    const pollyClient: PollyClient

    constructor (config: PluginConfig, service: SpeechRequest -> Synthesis)
      ensures this.config == config
      ensures fresh(pollyClient) && pollyClient.answer == service && pollyClient.calls == []
    {
      this.config := config;
      pollyClient := new PollyClient(service);
    }

    /** The `on_page_markdown` hook. */
    method OnPageMarkdown(markdown: string, page: Page, siteDir: string, fs: FileSystem)
      returns (result: string)
      modifies fs, pollyClient
      ensures var effect := OnPage(config, markdown, page, siteDir, old(fs.files),
                                   pollyClient.answer(SpeechRequest(CleanText(markdown), "mp3", config.voiceId)));
        result == effect.markdown && fs.files == effect.files
        && pollyClient.calls == old(pollyClient.calls) + RequestsOf(effect.request)
    {
      ghost var files, calls := fs.files, pollyClient.calls;
      ghost var answer := pollyClient.answer(SpeechRequest(CleanText(markdown), "mp3", config.voiceId));
      assert calls + RequestsOf(None) == calls;
      if !GenerateAudio(page.meta) {
        OnPageSkipped(config, markdown, page, siteDir, files, answer);
        return markdown;
      }
      var outputDir := Join(siteDir, config.outputDir);
      var textContent := Strip(ReplaceAll(markdown, Marker, ""));
      if textContent == [] {
        OnPageSkipped(config, markdown, page, siteDir, files, answer);
        return markdown;
      }
      var audioFilename := SplitExt(page.srcPath).0 + ".mp3";
      var audioPath := Join(outputDir, audioFilename);
      assert audioPath == ArtifactPath(siteDir, config, page.srcPath);
      if audioPath in files {
        CachedArtifactSkipsSynthesis(config, markdown, page, siteDir, files, answer);
      } else {
        OnPageAsked(config, markdown, page, siteDir, files, answer);
      }
      var proceed := SynthesizeIfMissing(textContent, audioPath, fs);
      if !proceed {
        return markdown;
      }
      var audioTag := AudioTag(config.outputDir, audioFilename);
      result := ReplaceFirst(markdown, Marker, Marker + "\n\n" + audioTag);
    }

    /** The part of the hook that makes the audio file: unless it exists,
        ask the service and write what it returns. `proceed` is false when
        the exception handler returns the page unchanged. */
    method SynthesizeIfMissing(textContent: string, audioPath: string, fs: FileSystem)
      returns (proceed: bool)
      modifies fs, pollyClient
      ensures var request := SpeechRequest(textContent, "mp3", config.voiceId);
        var answer := pollyClient.answer(request);
        if audioPath in old(fs.files) then
          proceed && fs.files == old(fs.files) && pollyClient.calls == old(pollyClient.calls)
        else
          (proceed <==> !(answer.Raises? || answer.BrokenStream?))
          && fs.files == (if answer.Stream? || answer.BrokenStream? then old(fs.files) + {audioPath}
                          else old(fs.files))
          && pollyClient.calls == old(pollyClient.calls) + [request]
    {
      var present := fs.Exists(audioPath);
      if present {
        return true;
      }
      var response := pollyClient.SynthesizeSpeech(SpeechRequest(textContent, "mp3", config.voiceId));
      match response {
        case Raises =>
          return false;
        case NoAudioStream =>
          return true;
        case Stream(_) =>
          fs.Open(audioPath);
          return true;
        case BrokenStream =>
          fs.Open(audioPath);
          return false;
      }
    }
  }

  // ---------------------------------------------------------------------
  // Properties of one call.

  /** Without a truthy `generate_audio` entry the page, the files and the
      service are untouched. */
  lemma OptOutLeavesPageAlone(config: PluginConfig, markdown: string, page: Page, siteDir: string,
                              files: set<string>, answer: Synthesis)
    requires !GenerateAudio(page.meta)
    ensures OnPage(config, markdown, page, siteDir, files, answer) == PageEffect(markdown, files, None)
  {
  }

  lemma MarkerEnds()
    ensures |Marker| > 0 && !IsSpace(Marker[0]) && !IsSpace(Marker[|Marker| - 1])
  {
    assert Marker[0] == '<' && Marker[|Marker| - 1] == '>';
  }

  /** The cleaned text is empty exactly when the page is whitespace and
      markers and nothing else. */
  lemma CleanTextEmptyIff(markdown: string)
    ensures CleanText(markdown) == [] <==> SpaceAndCopies(markdown, Marker)
  {
    MarkerEnds();
    StripEmptyIff(ReplaceAll(markdown, Marker, ""));
    RemovalAllSpaceIff(markdown, Marker);
  }

  /** A page of whitespace and markers only is returned as it is, with no
      file written and no speech requested. */
  lemma EmptyContentLeavesPageAlone(config: PluginConfig, markdown: string, page: Page, siteDir: string,
                                    files: set<string>, answer: Synthesis)
    requires SpaceAndCopies(markdown, Marker)
    ensures OnPage(config, markdown, page, siteDir, files, answer) == PageEffect(markdown, files, None)
  {
    CleanTextEmptyIff(markdown);
  }

  const NestedMarkers := "<!-- <!-- more -->more -->"

  /** The first marker in "<!-- <!-- more -->more -->" is the inner one. */
  lemma NestedMarkersFirst()
    ensures Find(NestedMarkers, Marker) == 5
  {
    var s := NestedMarkers;
    assert s[5..18] == Marker;
    forall k: nat | k < 5 ensures !OccursAt(s, Marker, k) {
      assert s[k + 5] != Marker[5];
    }
    FindIs(s, Marker, 5);
  }

  /** Marker removal is one pass: removing the inner marker of
      "<!-- <!-- more -->more -->" makes a new marker, which stays in the text
      sent to the speech service. */
  lemma CleaningKeepsNestedMarker()
    ensures ReplaceAll(NestedMarkers, Marker, "") == Marker
    ensures CleanText(NestedMarkers) == Marker
  {
    var rest := "more -->";
    NestedMarkersFirst();
    ReplaceAllAt(NestedMarkers, Marker, "");
    NestedSlices();
    FindNone(rest, Marker);
    assert ReplaceAll(rest, Marker, "") == rest;
    MarkerEnds();
    StripKeeps(Marker);
  }

  lemma NestedSlices()
    ensures NestedMarkers[..5] + "" + NestedMarkers[18..] == Marker
    ensures NestedMarkers[18..] == "more -->"
  {
    assert NestedMarkers[..5] == "<!-- ";
    assert NestedMarkers[18..] == "more -->";
  }

  /** The audio file name is the page's path with its extension, if it has
      one, cut off and ".mp3" put in its place. The cut lies inside the base
      name, so the page's directories are kept. */
  lemma AudioFilenameShape(srcPath: string)
    ensures var ext := SplitExt(srcPath).1; var n := |srcPath| - |ext|;
      0 <= n && ext == srcPath[n..] && AudioFilename(srcPath) == srcPath[..n] + ".mp3"
      && RFind(srcPath, '/') < n
    ensures SplitExt(srcPath).1 == [] <==> !DotAfterNonDot(Basename(srcPath))
  {
    var ext := SplitExt(srcPath).1;
    var n := |srcPath| - |ext|;
    assert SplitExt(srcPath).0 == srcPath[..n];
    SplitExtFindsExtension(srcPath);
  }

  /** A relative page path gives a relative audio file name. */
  lemma AudioFilenameRelative(srcPath: string)
    requires srcPath == [] || srcPath[0] != '/'
    ensures AudioFilename(srcPath)[0] != '/'
  {
    var stem := SplitExt(srcPath).0;
    if stem != [] {
      assert stem[0] == srcPath[0];
    }
  }

  /** `AudioFilename` once the last separator and the last dot are known:
      the extension is cut when a character other than a dot, at `k`, lies
      between them. */
  lemma AudioFilenameCut(p: string, sep: int, dot: int, k: int)
    requires -1 <= sep < k < dot < |p| && p[k] != '.'
    requires sep >= 0 ==> p[sep] == '/'
    requires p[dot] == '.'
    requires forall j :: sep < j < |p| ==> p[j] != '/'
    requires forall j :: dot < j < |p| ==> p[j] != '.'
    ensures AudioFilename(p) == p[..dot] + ".mp3"
  {
    RFindIs(p, '/', sep);
    RFindIs(p, '.', dot);
    NotAllDots(p, sep + 1, dot, k);
  }

  /** Otherwise, with only dots between them, the path is kept whole. */
  lemma AudioFilenameKeep(p: string, sep: int, dot: int)
    requires -1 <= sep < |p| && -1 <= dot < |p|
    requires sep >= 0 ==> p[sep] == '/'
    requires dot >= 0 ==> p[dot] == '.'
    requires forall j :: sep < j < |p| ==> p[j] != '/'
    requires forall j :: dot < j < |p| ==> p[j] != '.'
    requires forall j :: sep < j < dot ==> p[j] == '.'
    ensures AudioFilename(p) == p + ".mp3"
  {
    RFindIs(p, '/', sep);
    RFindIs(p, '.', dot);
    if dot > sep {
      OnlyDots(p, sep + 1, dot);
    }
  }

  /** A nested page path keeps its directories. */
  lemma AudioFilenameNested()
    ensures AudioFilename("docs/guide.md") == "docs/guide.mp3"
  {
    var p := "docs/guide.md";
    AudioFilenameCut(p, 4, 10, 5);
    assert p[..10] == "docs/guide";
  }

  /** A leading dot starts no extension. */
  lemma AudioFilenameHidden()
    ensures AudioFilename(".bashrc") == ".bashrc.mp3"
  {
    AudioFilenameKeep(".bashrc", -1, 0);
  }

  /** A leading dot of the base name starts no extension, a later one does. */
  lemma AudioFilenameHiddenWithExtension()
    ensures AudioFilename("dir/.hidden.md") == "dir/.hidden.mp3"
  {
    var p := "dir/.hidden.md";
    AudioFilenameCut(p, 3, 11, 5);
    assert p[..11] == "dir/.hidden";
  }

  /** Dots only before the last dot: no extension either. */
  lemma AudioFilenameDots()
    ensures AudioFilename("..md") == "..md.mp3"
  {
    AudioFilenameKeep("..md", -1, 1);
  }

  /** Only the last extension is replaced. */
  lemma AudioFilenameLastExtension()
    ensures AudioFilename("archive.tar.gz") == "archive.tar.mp3"
  {
    var p := "archive.tar.gz";
    AudioFilenameCut(p, -1, 11, 0);
    assert p[..11] == "archive.tar";
  }

  // ---------------------------------------------------------------------
  // The audio tag and where the file goes.

  lemma CharIn(s: string, k: int)
    requires 0 <= k < |s|
    ensures OccursAt(s, [s[k]], k)
  {
    assert s[k..k + 1] == [s[k]];
  }

  /** A character that occurs in `s` is found. */
  lemma FindCharFound(s: string, c: char)
    requires c in s
    ensures 0 <= Find(s, [c]) < |s|
  {
    var k :| 0 <= k < |s| && s[k] == c;
    CharIn(s, k);
    FindSpec(s, [c]);
  }

  /** The first quote of the tag opens the `src` value. */
  lemma TagOpenQuote(outputDir: string, filename: string)
    ensures var tag := AudioTag(outputDir, filename);
      Find(tag, "\"") == |TagHead|
      && tag[|TagHead| + 1..] == AudioSrc(outputDir, filename) + ("\"" + TagTail)
  {
    var src := AudioSrc(outputDir, filename);
    var rest := "\"" + (src + ("\"" + TagTail));
    TagParts(outputDir, filename);
    NoQuoteInTagHead();
    FindIs(rest, "\"", 0);
    FindSkip(TagHead, rest, "\"");
  }

  lemma TagParts(outputDir: string, filename: string)
    ensures AudioTag(outputDir, filename)
      == TagHead + ("\"" + (AudioSrc(outputDir, filename) + ("\"" + TagTail)))
  {
  }

  lemma NoQuoteInTagHead()
    ensures '"' !in TagHead
  {
  }

  /** Searching `src` followed by a closing quote stops at the end of `src`
      exactly when `src` holds no quote, and earlier otherwise. */
  lemma QuoteClosesValue(src: string, tail: string)
    requires Find(tail, "\"") == 0
    ensures var close := Find(src + tail, "\"");
      0 <= close <= |src| && (close == |src| <==> '"' !in src)
  {
    if '"' in src {
      FindCharFound(src, '"');
      FindPrefix(src, tail, "\"");
    } else {
      FindSkip(src, tail, "\"");
    }
  }

  /** The `src` of the tag reads back as `AudioSrc(outputDir, filename)`
      exactly when neither the output directory nor the file name holds a
      double quote; a quote in either cuts the value short. */
  lemma TagSrcRoundTrip(outputDir: string, filename: string)
    ensures FirstQuotedValue(AudioTag(outputDir, filename)) == Some(AudioSrc(outputDir, filename))
      <==> '"' !in outputDir + filename
  {
    var src := AudioSrc(outputDir, filename);
    var tail := "\"" + TagTail;
    TagOpenQuote(outputDir, filename);
    FindIs(tail, "\"", 0);
    QuoteClosesValue(src, tail);
    QuoteInSrc(outputDir, filename);
    var close := Find(src + tail, "\"");
    assert FirstQuotedValue(AudioTag(outputDir, filename)) == Some((src + tail)[..close]);
    assert (src + tail)[..|src|] == src;
  }

  lemma QuoteInSrc(outputDir: string, filename: string)
    ensures '"' in AudioSrc(outputDir, filename) <==> '"' in outputDir + filename
  {
    var src := AudioSrc(outputDir, filename);
    assert src == "/" + outputDir + "/" + filename;
    if '"' in outputDir + filename {
      var k :| 0 <= k < |outputDir + filename| && (outputDir + filename)[k] == '"';
      if k < |outputDir| {
        assert src[1 + k] == '"';
      } else {
        assert src[2 + k] == '"';
      }
    }
  }

  /** With a site directory and an output directory written without
      surrounding slashes and a relative page path, the audio file lies at
      the site directory followed by the tag's `src`. */
  lemma ArtifactPathLayout(siteDir: string, config: PluginConfig, srcPath: string)
    requires siteDir != [] && siteDir[|siteDir| - 1] != '/'
    requires config.outputDir != [] && config.outputDir[0] != '/'
      && config.outputDir[|config.outputDir| - 1] != '/'
    requires srcPath == [] || srcPath[0] != '/'
    ensures ArtifactPath(siteDir, config, srcPath) ==
      siteDir + AudioSrc(config.outputDir, AudioFilename(srcPath))
  {
    var d, f := config.outputDir, AudioFilename(srcPath);
    AudioFilenameRelative(srcPath);
    JoinTwo(siteDir, d, f);
    assert siteDir + "/" + d + "/" + f == siteDir + ("/" + d + "/" + f);
  }

  /** An absolute output directory replaces the site directory. */
  lemma ArtifactPathAbsolute(siteDir: string, config: PluginConfig, srcPath: string)
    requires [ '/' ] <= config.outputDir
    ensures ArtifactPath(siteDir, config, srcPath) == Join(config.outputDir, AudioFilename(srcPath))
  {
  }

  // ---------------------------------------------------------------------
  // Putting the tag after the first marker.

  /** Without a marker the page is returned unchanged; otherwise a blank
      line and the tag go right after the first marker, everything before
      and after it is kept, and that marker stays the first. */
  lemma TagInsertion(markdown: string, tag: string)
    ensures Find(markdown, Marker) < 0 ==> InsertTag(markdown, tag) == markdown
    ensures Find(markdown, Marker) >= 0 ==>
      var j := Find(markdown, Marker) + |Marker|;
      j <= |markdown|
      && InsertTag(markdown, tag) == markdown[..j] + ("\n\n" + tag + markdown[j..])
      && |InsertTag(markdown, tag)| == |markdown| + 2 + |tag|
      && Find(InsertTag(markdown, tag), Marker) == Find(markdown, Marker)
  {
    if Find(markdown, Marker) >= 0 {
      assert Marker + "\n\n" + tag == Marker + ("\n\n" + tag);
      ReplaceFirstAppends(markdown, Marker, "\n\n" + tag);
      ReplaceFirstKeepsFirst(markdown, Marker, "\n\n" + tag);
    }
  }

  /** Later markers are kept, each moved by the length of what was put in. */
  lemma LaterMarkersKept(markdown: string, tag: string, k: nat)
    requires Find(markdown, Marker) >= 0 && Find(markdown, Marker) + |Marker| <= k
    requires OccursAt(markdown, Marker, k)
    ensures OccursAt(InsertTag(markdown, tag), Marker, k + 2 + |tag|)
  {
    var j := Find(markdown, Marker) + |Marker|;
    TagInsertion(markdown, tag);
    assert markdown == markdown[..j] + markdown[j..];
    OccursAfterInsert(markdown[..j], "\n\n" + tag, markdown[j..], Marker, k);
  }

  // ---------------------------------------------------------------------
  // What one call does, case by case, and what two calls do.

  /** The page takes part: it opts in and has something to say. */
  predicate Narrated(markdown: string, page: Page)
  {
    GenerateAudio(page.meta) && CleanText(markdown) != []
  }

  function TagFor(config: PluginConfig, page: Page): string
  {
    AudioTag(config.outputDir, AudioFilename(page.srcPath))
  }

  /** The speech service is asked exactly when the page takes part and its
      audio file does not exist yet, and then it is asked for the cleaned
      text in mp3 with the configured voice. */
  lemma SynthesisInvokedIff(config: PluginConfig, markdown: string, page: Page, siteDir: string,
                            files: set<string>, answer: Synthesis)
    ensures var e := OnPage(config, markdown, page, siteDir, files, answer);
      (e.request.Some? <==>
        Narrated(markdown, page) && ArtifactPath(siteDir, config, page.srcPath) !in files)
      && (e.request.Some? ==>
        e.request.value == SpeechRequest(CleanText(markdown), "mp3", config.voiceId))
  {
    if !Narrated(markdown, page) {
      OnPageSkipped(config, markdown, page, siteDir, files, answer);
    } else if ArtifactPath(siteDir, config, page.srcPath) in files {
      CachedArtifactSkipsSynthesis(config, markdown, page, siteDir, files, answer);
    } else {
      OnPageAsked(config, markdown, page, siteDir, files, answer);
    }
  }

  /** Whatever happens, the files only grow, by the page's audio file at
      most, and the page comes back unchanged or with the tag inserted. */
  lemma EffectsAreBounded(config: PluginConfig, markdown: string, page: Page, siteDir: string,
                          files: set<string>, answer: Synthesis)
    ensures var e := OnPage(config, markdown, page, siteDir, files, answer);
      files <= e.files <= files + {ArtifactPath(siteDir, config, page.srcPath)}
      && (e.markdown == markdown || e.markdown == InsertTag(markdown, TagFor(config, page)))
  {
    if !Narrated(markdown, page) {
      OnPageSkipped(config, markdown, page, siteDir, files, answer);
    } else if ArtifactPath(siteDir, config, page.srcPath) in files {
      CachedArtifactSkipsSynthesis(config, markdown, page, siteDir, files, answer);
    } else {
      OnPageAsked(config, markdown, page, siteDir, files, answer);
    }
  }

  /** A page that does not take part is returned as it is, and nothing
      else happens. */
  lemma OnPageSkipped(config: PluginConfig, markdown: string, page: Page, siteDir: string,
                      files: set<string>, answer: Synthesis)
    requires !Narrated(markdown, page)
    ensures OnPage(config, markdown, page, siteDir, files, answer) == PageEffect(markdown, files, None)
  {
  }

  /** When the service is asked, the outcome decides the page text and the
      files: the page is tagged unless the call or the write fails, and the
      audio file exists once it has been opened for writing. */
  lemma OnPageAsked(config: PluginConfig, markdown: string, page: Page, siteDir: string,
                    files: set<string>, answer: Synthesis)
    requires Narrated(markdown, page) && ArtifactPath(siteDir, config, page.srcPath) !in files
    ensures OnPage(config, markdown, page, siteDir, files, answer) == PageEffect(
      if answer.Raises? || answer.BrokenStream? then markdown else InsertTag(markdown, TagFor(config, page)),
      if answer.Stream? || answer.BrokenStream? then files + {ArtifactPath(siteDir, config, page.srcPath)} else files,
      Some(SpeechRequest(CleanText(markdown), "mp3", config.voiceId)))
  {
  }

  /** An audio file that already exists is not made again, but the tag is
      still inserted. */
  lemma CachedArtifactSkipsSynthesis(config: PluginConfig, markdown: string, page: Page, siteDir: string,
                                     files: set<string>, answer: Synthesis)
    requires Narrated(markdown, page) && ArtifactPath(siteDir, config, page.srcPath) in files
    ensures OnPage(config, markdown, page, siteDir, files, answer)
      == PageEffect(InsertTag(markdown, TagFor(config, page)), files, None)
  {
  }

  /** When the service is asked and the call fails, the page is returned
      unchanged and no file is written. */
  lemma SynthesisRaisesLeavesPageAlone(config: PluginConfig, markdown: string, page: Page, siteDir: string,
                                       files: set<string>)
    requires ArtifactPath(siteDir, config, page.srcPath) !in files
    ensures var e := OnPage(config, markdown, page, siteDir, files, Raises);
      e.markdown == markdown && e.files == files
  {
  }

  /** Audio that arrives is written to exactly the page's audio file, and
      the tag is inserted. */
  lemma StreamAddsArtifact(config: PluginConfig, markdown: string, page: Page, siteDir: string,
                           files: set<string>, audio: seq<bv8>)
    requires Narrated(markdown, page) && ArtifactPath(siteDir, config, page.srcPath) !in files
    ensures var e := OnPage(config, markdown, page, siteDir, files, Stream(audio));
      e.files == files + {ArtifactPath(siteDir, config, page.srcPath)}
      && e.markdown == InsertTag(markdown, TagFor(config, page))
  {
    var request := SpeechRequest(CleanText(markdown), "mp3", config.voiceId);
    var path := ArtifactPath(siteDir, config, page.srcPath);
    assert OnPage(config, markdown, page, siteDir, files, Stream(audio))
      == PageEffect(InsertTag(markdown, TagFor(config, page)), files + {path}, Some(request));
  }

  /** A response without audio writes nothing, yet the tag is inserted. */
  lemma NoAudioStreamStillTags(config: PluginConfig, markdown: string, page: Page, siteDir: string,
                               files: set<string>)
    requires Narrated(markdown, page)
    ensures var e := OnPage(config, markdown, page, siteDir, files, NoAudioStream);
      e.files == files && e.markdown == InsertTag(markdown, TagFor(config, page))
  {
    if ArtifactPath(siteDir, config, page.srcPath) in files {
      CachedArtifactSkipsSynthesis(config, markdown, page, siteDir, files, NoAudioStream);
    } else {
      OnPageAsked(config, markdown, page, siteDir, files, NoAudioStream);
    }
  }

  /** A stream that fails while being written leaves the page unchanged but
      the audio file created. */
  lemma BrokenStreamLeavesArtifact(config: PluginConfig, markdown: string, page: Page, siteDir: string,
                                   files: set<string>)
    requires Narrated(markdown, page) && ArtifactPath(siteDir, config, page.srcPath) !in files
    ensures var e := OnPage(config, markdown, page, siteDir, files, BrokenStream);
      e.markdown == markdown && e.files == files + {ArtifactPath(siteDir, config, page.srcPath)}
  {
    var request := SpeechRequest(CleanText(markdown), "mp3", config.voiceId);
    var path := ArtifactPath(siteDir, config, page.srcPath);
    assert OnPage(config, markdown, page, siteDir, files, BrokenStream)
      == PageEffect(markdown, files + {path}, Some(request));
  }

  /** Building the same page a second time, after the first build left its
      audio file, asks the service nothing, changes no file and inserts the
      same tag, whatever the service would answer. */
  lemma SecondRunUsesCache(config: PluginConfig, markdown: string, page: Page, siteDir: string,
                           files: set<string>, first: Synthesis, second: Synthesis)
    requires Narrated(markdown, page)
    requires var e := OnPage(config, markdown, page, siteDir, files, first);
      ArtifactPath(siteDir, config, page.srcPath) in e.files
    ensures var e := OnPage(config, markdown, page, siteDir, files, first);
      var e2 := OnPage(config, markdown, page, siteDir, e.files, second);
      e2.request == None && e2.files == e.files
      && e2.markdown == InsertTag(markdown, TagFor(config, page))
  {
  }

  /** A page with no marker is never changed. */
  lemma NoMarkerNoChange(config: PluginConfig, markdown: string, page: Page, siteDir: string,
                         files: set<string>, answer: Synthesis)
    requires Find(markdown, Marker) < 0
    ensures OnPage(config, markdown, page, siteDir, files, answer).markdown == markdown
  {
    TagInsertion(markdown, TagFor(config, page));
  }

  // ---------------------------------------------------------------------
  // A worked page.

  /** The page "Intro text.\n<!-- more -->\nDetails.", in three parts. */
  const GuideIntro := "Intro text.\n"
  const GuideRest := "\nDetails."
  const GuidePage := GuideIntro + Marker + GuideRest

  /** The first marker of the worked page follows its first line. */
  lemma GuideMarker()
    ensures Find(GuidePage, Marker) == |GuideIntro| == 12
  {
    assert Marker[0] !in GuideIntro;
    FindIs(Marker + GuideRest, Marker, 0);
    assert GuidePage == GuideIntro + (Marker + GuideRest);
    FindSkip(GuideIntro, Marker + GuideRest, Marker);
  }

  /** The text sent for the worked page is "Intro text.\n\nDetails.": the
      marker is gone, the line breaks around it stay. */
  lemma GuideCleanText()
    ensures CleanText(GuidePage) == GuideIntro + GuideRest
  {
    GuideMarker();
    ReplaceAllAt(GuidePage, Marker, "");
    GuideSlices();
    FindNone(GuideRest, Marker);
    assert ReplaceAll(GuideRest, Marker, "") == GuideRest;
    GuideTextStripped();
  }

  lemma GuideSlices()
    ensures GuidePage[..12] == GuideIntro
    ensures GuidePage[12 + |Marker|..] == GuideRest
    ensures GuidePage[..12 + |Marker|] == GuideIntro + Marker
  {
  }

  lemma GuideTextStripped()
    ensures Strip(GuideIntro + "" + GuideRest) == GuideIntro + GuideRest
  {
    var r := GuideIntro + GuideRest;
    assert GuideIntro + "" + GuideRest == r;
    assert r[0] == 'I' && r[|r| - 1] == '.';
    StripKeeps(r);
  }

  /** In the worked page the tag goes right after its one marker: the page
      becomes "Intro text.\n<!-- more -->", a blank line, the tag, and
      "\nDetails.". */
  lemma GuideTagged(tag: string)
    ensures InsertTag(GuidePage, tag) == GuideIntro + Marker + "\n\n" + tag + GuideRest
  {
    GuideMarker();
    TagInsertion(GuidePage, tag);
    GuideSlices();
  }

  lemma GuideSrc()
    ensures AudioSrc("audio", "docs/guide.mp3") == "/audio/docs/guide.mp3"
  {
  }

  /** With the default options the tag of `docs/guide.md` points at
      `/audio/docs/guide.mp3`. */
  lemma GuideTagFor(meta: map<string, MetaValue>)
    ensures TagFor(DefaultConfig, Page("docs/guide.md", meta))
      == TagHead + "\"" + "/audio/docs/guide.mp3" + "\"" + TagTail
  {
    AudioFilenameNested();
    GuideSrc();
  }

  /** A worked page, built with the default options and a service that
      returns audio: the audio goes to `<site>/audio/docs/guide.mp3`, the
      service is asked once for the cleaned text, and the tag follows the
      marker once. */
  lemma GuideExample(page: Page, siteDir: string, files: set<string>, audio: seq<bv8>)
    requires page == Page("docs/guide.md", map["generate_audio" := Bool(true)])
    requires siteDir != [] && siteDir[|siteDir| - 1] != '/'
    requires siteDir + "/audio/docs/guide.mp3" !in files
    ensures var e := OnPage(DefaultConfig, GuidePage, page, siteDir, files, Stream(audio));
      e.files == files + {siteDir + "/audio/docs/guide.mp3"}
      && e.request == Some(SpeechRequest(GuideIntro + GuideRest, "mp3", "Matthew"))
      && e.markdown == GuideIntro + Marker + "\n\n"
         + (TagHead + "\"" + "/audio/docs/guide.mp3" + "\"" + TagTail) + GuideRest
  {
    assert GenerateAudio(page.meta);
    GuideCleanText();
    AudioFilenameNested();
    ArtifactPathLayout(siteDir, DefaultConfig, page.srcPath);
    GuideSrc();
    GuideTagFor(page.meta);
    GuideTagged(TagFor(DefaultConfig, page));
    StreamAddsArtifact(DefaultConfig, GuidePage, page, siteDir, files, audio);
    SynthesisInvokedIff(DefaultConfig, GuidePage, page, siteDir, files, Stream(audio));
  }
}
