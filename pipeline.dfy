/** generate_combined_video: the loop over the transcript's words, their
    keys and the four extensions that appends one clip per hit or one
    fallback clip per unresolved word, and the final decision whether the
    output file is written. */
module Pipeline {
  import opened Text
  import opened Tokens
  import opened Catalog
  import opened Caption
  import opened Segments

  /** How a run ends: the media directory is missing (nothing is built), it
      exists but cannot be listed (os.listdir raises and the run stops before
      any clip), no clip was built (nothing is written), or the clips
      concatenated in this order are written to the output path. */
  datatype Outcome = DirectoryMissing | ListingFailed | EmptyTimeline | Written(path: string, clips: seq<Segment>)

  /** The assembly decision of sih.py:115-120. */
  function Assemble(outputPath: string, clips: seq<Segment>): (o: Outcome)
    ensures o.Written? <==> clips != []
    ensures o.Written? ==> o.path == outputPath && o.clips == clips
    ensures !o.Written? ==> o == EmptyTimeline
  {
    if clips != [] then Written(outputPath, clips) else EmptyTimeline
  }

  /** The extension loop of one key (sih.py:81-100): probe key + ext in
      the fixed order and, on the first hit, append the combined clip and
      leave this loop only. */
  method AddPart(m: Media, clips: seq<Segment>, part: string) returns (clips': seq<Segment>, added: bool)
    ensures added <==> Lookup(m.catalog, part).Some?
    ensures added ==> clips' == clips + [KeySegment(m, part)]
    ensures !added ==> clips' == clips
  {
    clips', added := clips, false;
    for e := 0 to |EXTENSIONS|
      invariant clips' == clips && !added
      invariant Lookup(m.catalog, part) == LookupFrom(m.catalog, part, e)
    {
      var ext := EXTENSIONS[e];
      var mediaFile := part + ext;
      if mediaFile in m.catalog {
        var file := m.catalog[mediaFile];
        var wordClip: Visual;
        if ext == ".mp4" {
          wordClip := Visual(file, Video, m.videoDuration(file), true);
        } else {
          wordClip := Visual(file, Image, IMAGE_DURATION, false);
        }
        var text := "English: " + part;
        var (tw, th) := m.textExtent(text);
        var textClip := CaptionClip(CreateTextImage(text, tw, th), wordClip.duration, CenterBottom);
        clips' := clips' + [Segment(wordClip.(hasAudio := false), textClip)];
        added := true;
        break;
      }
    }
  }

  /** The body of the loop over the words (sih.py:70-112): every key of the
      word is probed, and the fallback clip is appended when none hit and
      default_video.mp4 exists. */
  method AddWord(m: Media, clips: seq<Segment>, word: string) returns (clips': seq<Segment>)
    ensures clips' == clips + WordSegments(m, word)
  {
    var wordLower := Lower(word);
    var wordSplit: seq<string>;
    if IsNumeric(word) {
      wordSplit := SplitNumericWord(word);
    } else {
      wordSplit := [wordLower];
    }
    assert wordSplit == Keys(word);
    var videoAdded;
    clips', videoAdded := AddKeys(m, clips, wordSplit);
    if !videoAdded {
      if m.hasDefault {
        clips' := AddFallback(m, clips', word);
      }
    }
  }

  /** The loop over one word's keys (sih.py:79-100), with the flag that
      records whether any of them hit. */
  method AddKeys(m: Media, clips: seq<Segment>, keys: seq<string>) returns (clips': seq<Segment>, videoAdded: bool)
    ensures clips' == clips + KeySegments(m, keys)
    ensures videoAdded <==> KeySegments(m, keys) != []
  {
    clips', videoAdded := clips, false;
    for p := 0 to |keys|
      invariant clips' == clips + KeySegments(m, keys[..p])
      invariant videoAdded <==> KeySegments(m, keys[..p]) != []
    {
      ghost var done := KeySegments(m, keys[..p]);
      var added;
      clips', added := AddPart(m, clips', keys[p]);
      videoAdded := videoAdded || added;
      KeySegmentsStep(m, keys, p);
      assert added ==> clips' == clips + (done + [KeySegment(m, keys[p])]);
    }
    assert keys[..|keys|] == keys;
  }

  /** The fallback of sih.py:104-112: default_video.mp4, audio stripped,
      captioned with the word as spoken. */
  method AddFallback(m: Media, clips: seq<Segment>, word: string) returns (clips': seq<Segment>)
    ensures clips' == clips + [Fallback(m, word)]
  {
    var wordClip := Visual(DEFAULT_VIDEO, Video, m.videoDuration(DEFAULT_VIDEO), true);
    var text := "English: " + word;
    var (tw, th) := m.textExtent(text);
    var textClip := CaptionClip(CreateTextImage(text, tw, th), wordClip.duration, CenterBottom);
    clips' := clips + [Segment(wordClip.(hasAudio := false), textClip)];
  }

  /** The whole run, for the result of listing the media directory (None
      when os.listdir raises), whether default_video.mp4 exists, a
      clip-duration oracle and a text-size oracle. */
  method GenerateCombinedVideo(
    transcript: string,
    mediaDirExists: bool,
    listing: Option<seq<string>>,
    hasDefault: bool,
    videoDuration: string -> nat,
    textExtent: string -> (nat, nat),
    outputPath: string)
    returns (o: Outcome)
    ensures !mediaDirExists ==> o == DirectoryMissing
    ensures mediaDirExists && listing.None? ==> o == ListingFailed
    ensures mediaDirExists && listing.Some? ==>
      o == Assemble(outputPath, Timeline(Media(BuildCatalog(listing.value), hasDefault, videoDuration, textExtent), Split(transcript)))
  {
    if !mediaDirExists {
      return DirectoryMissing;
    }
    var clips: seq<Segment> := [];
    if listing.None? {
      return ListingFailed;
    }
    var mediaFiles := BuildCatalog(listing.value);
    var m := Media(mediaFiles, hasDefault, videoDuration, textExtent);
    var words := Split(transcript);
    for w := 0 to |words|
      invariant clips == Timeline(m, words[..w])
    {
      clips := AddWord(m, clips, words[w]);
      TimelineStep(m, words, w);
    }
    assert words[..|words|] == words;
    if clips != [] {
      o := Written(outputPath, clips);
    } else {
      o := EmptyTimeline;
    }
  }

  /** The media context of a run. */
  function RunMedia(files: seq<string>, hasDefault: bool, videoDuration: string -> nat, textExtent: string -> (nat, nat)): Media {
    Media(BuildCatalog(files), hasDefault, videoDuration, textExtent)
  }

  /** The output file is written exactly when some transcript word has a
      resolving key, or there is a word and default_video.mp4 exists. */
  lemma WrittenIff(transcript: string, files: seq<string>, hasDefault: bool,
                   videoDuration: string -> nat, textExtent: string -> (nat, nat), outputPath: string)
    ensures var m := RunMedia(files, hasDefault, videoDuration, textExtent);
            var words := Split(transcript);
            Assemble(outputPath, Timeline(m, words)).Written? <==>
              exists i :: 0 <= i < |words| && (ResolvedKeys(m.catalog, Keys(words[i])) != [] || hasDefault)
  {
    TimelineEmpty(RunMedia(files, hasDefault, videoDuration, textExtent), Split(transcript));
  }

  /** A transcript none of whose words resolves, with no fallback, writes
      nothing. */
  lemma NothingResolvesNothingWritten(transcript: string, files: seq<string>,
                   videoDuration: string -> nat, textExtent: string -> (nat, nat), outputPath: string)
    requires var cat := BuildCatalog(files);
             forall w :: w in Split(transcript) ==> forall k :: k in Keys(w) ==> Lookup(cat, k).None?
    ensures Assemble(outputPath, Timeline(RunMedia(files, false, videoDuration, textExtent), Split(transcript))) == EmptyTimeline
  {
    var m := RunMedia(files, false, videoDuration, textExtent);
    var words := Split(transcript);
    forall i | 0 <= i < |words|
      ensures ResolvedKeys(m.catalog, Keys(words[i])) == []
    {
      assert words[i] in words;
      var keys := Keys(words[i]);
      assert forall j :: 0 <= j < |keys| ==> keys[j] in keys;
    }
    TimelineEmpty(m, words);
  }

  /** A run never builds more clips than its transcript has keys. */
  lemma ClipsAtMostKeys(transcript: string, m: Media)
    ensures |Timeline(m, Split(transcript))| <= KeyCount(Split(transcript))
  {
    var words := Split(transcript);
    SplitYieldsTokens(transcript);
    TimelineBound(m, words);
  }
}
