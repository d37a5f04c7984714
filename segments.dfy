/** The segment builder of generate_combined_video as specification
    functions: what one key, one word and a whole transcript contribute to
    the list of clips, and the properties of that list. */
module Segments {
  import opened Text
  import opened Tokens
  import opened Catalog
  import opened Caption

  /** ImageClip(...).set_duration(2): a still is held for two seconds. */
  const IMAGE_DURATION: nat := 2

  /** set_position(("center", "bottom")) */
  datatype Position = CenterBottom

  /** A decoded asset: the file opened, its kind, its duration, and whether
      it still carries an audio track. */
  datatype Visual = Visual(file: string, kind: Kind, duration: nat, hasAudio: bool)

  /** The caption clip: the rendered raster and how long it is shown. */
  datatype CaptionClip = CaptionClip(image: TextImage, duration: nat, position: Position)

  /** One combined clip appended to the list: the asset with its audio
      removed, and its caption. */
  datatype Segment = Segment(visual: Visual, caption: CaptionClip)

  /** Everything a run reads besides the transcript: the catalog, whether
      default_video.mp4 exists, a video's decoded duration, and the
      measured size of a caption text. */
  datatype Media = Media(
    catalog: map<string, string>,
    hasDefault: bool,
    videoDuration: string -> nat,
    textExtent: string -> (nat, nat))

  function CaptionText(shown: string): string {
    "English: " + shown
  }

  /** VideoFileClip(file), or ImageClip(file).set_duration(2). A video is
      taken to carry audio until it is stripped. */
  function Load(m: Media, file: string, kind: Kind): Visual {
    if kind == Video then Visual(file, Video, m.videoDuration(file), true)
    else Visual(file, Image, IMAGE_DURATION, false)
  }

  /** The caption raster for a caption text, at its measured size. */
  function CaptionImage(m: Media, shown: string): TextImage {
    var text := CaptionText(shown);
    CreateTextImage(text, m.textExtent(text).0, m.textExtent(text).1)
  }

  /** concatenate_videoclips([clip.set_audio(None), text_clip], "compose")
      with the caption lasting as long as the clip. */
  function Compose(m: Media, v: Visual, shown: string): Segment {
    Segment(v.(hasAudio := false), CaptionClip(CaptionImage(m, shown), v.duration, CenterBottom))
  }

  /** The segment built for a key that the catalog resolves. */
  function KeySegment(m: Media, key: string): Segment
    requires Lookup(m.catalog, key).Some?
  {
    var a := Lookup(m.catalog, key).value;
    Compose(m, Load(m, a.file, KindAt(a.index)), key)
  }

  /** The segment built from default_video.mp4 for an unresolved word,
      captioned with the word as spoken. */
  function Fallback(m: Media, word: string): Segment {
    Compose(m, Load(m, DEFAULT_VIDEO, Video), word)
  }

  /** The keys that resolve in the catalog, in their original order. */
  function ResolvedKeys(cat: map<string, string>, keys: seq<string>): (r: seq<string>)
    ensures |r| <= |keys|
    ensures forall i :: 0 <= i < |r| ==> Lookup(cat, r[i]).Some? && r[i] in keys
    ensures r == [] <==> forall i :: 0 <= i < |keys| ==> Lookup(cat, keys[i]).None?
  {
    if keys == [] then []
    else
      var front := keys[..|keys| - 1];
      var last := keys[|keys| - 1];
      assert forall i :: 0 <= i < |front| ==> front[i] == keys[i];
      var r := ResolvedKeys(cat, front);
      if Lookup(cat, last).Some? then r + [last] else r
  }

  /** A single key is kept exactly when it resolves. */
  lemma ResolvedKeysOne(cat: map<string, string>, key: string)
    ensures ResolvedKeys(cat, [key]) == if Lookup(cat, key).Some? then [key] else []
  {
    assert [key][..0] == [];
  }

  /** Resolution works key by key: the resolving keys of a concatenation are
      those of the first part followed by those of the second. With
      ResolvedKeysOne this says every resolving key is kept, in order, and
      every other key is dropped. */
  lemma {:induction false} ResolvedKeysAppend(cat: map<string, string>, a: seq<string>, b: seq<string>)
    ensures ResolvedKeys(cat, a + b) == ResolvedKeys(cat, a) + ResolvedKeys(cat, b)
    decreases |b|
  {
    if b == [] {
      assert a + b == a;
    } else {
      var n := |b| - 1;
      assert (a + b)[..|a + b| - 1] == a + b[..n];
      assert (a + b)[|a + b| - 1] == b[n];
      ResolvedKeysAppend(cat, a, b[..n]);
    }
  }

  /** The inner loops over one word's keys: the segments appended for them
      in turn. */
  function KeySegments(m: Media, keys: seq<string>): seq<Segment> {
    if keys == [] then []
    else
      var front := KeySegments(m, keys[..|keys| - 1]);
      var last := keys[|keys| - 1];
      if Lookup(m.catalog, last).Some? then front + [KeySegment(m, last)] else front
  }

  /** One segment per resolving key, in key order, built for that key; an
      unresolved key adds nothing. */
  lemma {:induction false} KeySegmentsResolved(m: Media, keys: seq<string>)
    ensures |KeySegments(m, keys)| == |ResolvedKeys(m.catalog, keys)|
    ensures forall i :: 0 <= i < |KeySegments(m, keys)| ==>
      KeySegments(m, keys)[i] == KeySegment(m, ResolvedKeys(m.catalog, keys)[i])
    decreases |keys|
  {
    if keys != [] {
      KeySegmentsResolved(m, keys[..|keys| - 1]);
    }
  }

  /** One more key of the inner loop: a resolving key appends its
      segment, an unresolved one appends nothing. */
  lemma KeySegmentsStep(m: Media, keys: seq<string>, p: nat)
    requires p < |keys|
    ensures Lookup(m.catalog, keys[p]).Some? ==>
      KeySegments(m, keys[..p + 1]) == KeySegments(m, keys[..p]) + [KeySegment(m, keys[p])]
    ensures Lookup(m.catalog, keys[p]).None? ==>
      KeySegments(m, keys[..p + 1]) == KeySegments(m, keys[..p])
  {
    assert keys[..p + 1][..p] == keys[..p];
  }

  /** Everything one transcript word contributes: what its keys give, or,
      when none of them resolves, the fallback if it exists. */
  function WordSegments(m: Media, word: string): seq<Segment> {
    var hits := KeySegments(m, Keys(word));
    if hits != [] then hits
    else if m.hasDefault then [Fallback(m, word)]
    else []
  }

  /** A word with resolving keys gets exactly one segment per such key, in
      key order and captioned with the key; a word without gets the
      fallback clip captioned with the word itself, or nothing. */
  lemma WordSegmentsCases(m: Media, word: string)
    ensures var r := ResolvedKeys(m.catalog, Keys(word));
      && (r != [] ==> |WordSegments(m, word)| == |r|)
      && (r != [] ==> forall i :: 0 <= i < |r| ==> WordSegments(m, word)[i] == KeySegment(m, r[i]))
      && (r == [] && m.hasDefault ==> WordSegments(m, word) == [Fallback(m, word)])
      && (r == [] && !m.hasDefault ==> WordSegments(m, word) == [])
  {
    KeySegmentsResolved(m, Keys(word));
  }

  lemma WordSegmentsEmpty(m: Media, word: string)
    ensures WordSegments(m, word) == [] <==> ResolvedKeys(m.catalog, Keys(word)) == [] && !m.hasDefault
  {
    KeySegmentsResolved(m, Keys(word));
  }

  /** The per-word results of a loop over the words, concatenated in word
      order. */
  function Flatten<T>(f: string -> seq<T>, words: seq<string>): seq<T> {
    if words == [] then []
    else Flatten(f, words[..|words| - 1]) + f(words[|words| - 1])
  }

  lemma {:induction false} FlattenAppend<T>(f: string -> seq<T>, a: seq<string>, b: seq<string>)
    ensures Flatten(f, a + b) == Flatten(f, a) + Flatten(f, b)
    decreases |b|
  {
    if b == [] {
      assert a + b == a;
    } else {
      var n := |b| - 1;
      assert (a + b)[..|a + b| - 1] == a + b[..n];
      assert (a + b)[|a + b| - 1] == b[n];
      FlattenAppend(f, a, b[..n]);
    }
  }

  lemma {:induction false} FlattenEmpty<T>(f: string -> seq<T>, words: seq<string>)
    ensures Flatten(f, words) == [] <==> forall i :: 0 <= i < |words| ==> f(words[i]) == []
    decreases |words|
  {
    if words != [] {
      var front := words[..|words| - 1];
      assert forall i :: 0 <= i < |front| ==> front[i] == words[i];
      FlattenEmpty(f, front);
    }
  }

  /** One more word appends that word's results. */
  lemma FlattenStep<T>(f: string -> seq<T>, words: seq<string>, i: nat)
    requires i < |words|
    ensures Flatten(f, words[..i + 1]) == Flatten(f, words[..i]) + f(words[i])
  {
    assert words[..i + 1][..i] == words[..i];
  }

  lemma FlattenAt<T>(f: string -> seq<T>, words: seq<string>, i: nat)
    requires i < |words|
    ensures Flatten(f, words) == Flatten(f, words[..i]) + f(words[i]) + Flatten(f, words[i + 1..])
  {
    assert words == words[..i + 1] + words[i + 1..];
    FlattenAppend(f, words[..i + 1], words[i + 1..]);
    FlattenStep(f, words, i);
  }

  function PerWord(m: Media): string -> seq<Segment> {
    word => WordSegments(m, word)
  }

  /** The clips list after the loop over the words. */
  function Timeline(m: Media, words: seq<string>): seq<Segment> {
    Flatten(PerWord(m), words)
  }

  /** One more word of the outer loop appends that word's segments. */
  lemma TimelineStep(m: Media, words: seq<string>, w: nat)
    requires w < |words|
    ensures Timeline(m, words[..w + 1]) == Timeline(m, words[..w]) + WordSegments(m, words[w])
  {
    FlattenStep(PerWord(m), words, w);
  }

  /** The words after the first ones contribute after them: the timeline of
      two transcripts read one after the other is the first timeline
      followed by the second. */
  lemma TimelineAppend(m: Media, a: seq<string>, b: seq<string>)
    ensures Timeline(m, a + b) == Timeline(m, a) + Timeline(m, b)
  {
    FlattenAppend(PerWord(m), a, b);
  }

  /** Each word's segments sit, as a block, after those of every earlier
      word and before those of every later word. */
  lemma TimelineAt(m: Media, words: seq<string>, i: nat)
    requires i < |words|
    ensures Timeline(m, words) == Timeline(m, words[..i]) + WordSegments(m, words[i]) + Timeline(m, words[i + 1..])
  {
    FlattenAt(PerWord(m), words, i);
  }

  /** Sum over the words of the number of keys that resolve. */
  function ResolvedCount(m: Media, words: seq<string>): nat {
    if words == [] then 0
    else ResolvedCount(m, words[..|words| - 1]) + |ResolvedKeys(m.catalog, Keys(words[|words| - 1]))|
  }

  /** Number of words none of whose keys resolves. */
  function UnresolvedCount(m: Media, words: seq<string>): nat {
    if words == [] then 0
    else UnresolvedCount(m, words[..|words| - 1]) + (if ResolvedKeys(m.catalog, Keys(words[|words| - 1])) == [] then 1 else 0)
  }

  /** Sum over the words of the number of keys. */
  function KeyCount(words: seq<string>): nat {
    if words == [] then 0 else KeyCount(words[..|words| - 1]) + |Keys(words[|words| - 1])|
  }

  /** One segment per resolving key, plus one per unresolved word when the
      fallback exists. */
  lemma {:induction false} TimelineCount(m: Media, words: seq<string>)
    ensures |Timeline(m, words)| == ResolvedCount(m, words) + (if m.hasDefault then UnresolvedCount(m, words) else 0)
    decreases |words|
  {
    if words != [] {
      TimelineCount(m, words[..|words| - 1]);
      WordSegmentsCases(m, words[|words| - 1]);
    }
  }

  /** There are never more segments than keys. */
  lemma {:induction false} TimelineBound(m: Media, words: seq<string>)
    requires forall i :: 0 <= i < |words| ==> |words[i]| > 0
    ensures |Timeline(m, words)| <= KeyCount(words)
    decreases |words|
  {
    if words != [] {
      var front := words[..|words| - 1];
      forall i | 0 <= i < |front|
        ensures |front[i]| > 0
      {
        assert front[i] == words[i];
      }
      TimelineBound(m, front);
      WordSegmentsCases(m, words[|words| - 1]);
    }
  }

  /** No segment is built exactly when no key of any word resolves and, if
      there is a word at all, the fallback is missing. */
  lemma TimelineEmpty(m: Media, words: seq<string>)
    ensures Timeline(m, words) == [] <==>
      forall i :: 0 <= i < |words| ==> ResolvedKeys(m.catalog, Keys(words[i])) == [] && !m.hasDefault
  {
    FlattenEmpty(PerWord(m), words);
    forall i | 0 <= i < |words|
      ensures PerWord(m)(words[i]) == [] <==> ResolvedKeys(m.catalog, Keys(words[i])) == [] && !m.hasDefault
    {
      WordSegmentsEmpty(m, words[i]);
    }
  }

  /** What every built segment satisfies: audio stripped, caption as long
      as the clip and at the bottom centre, a still held for two seconds, a
      video for its own duration, the file one of the catalog's (or the
      fallback when it exists), the caption text starting "English: ". */
  predicate WellFormed(m: Media, s: Segment) {
    && !s.visual.hasAudio
    && s.caption.duration == s.visual.duration
    && s.caption.position == CenterBottom
    && (s.visual.kind == Image ==> s.visual.duration == IMAGE_DURATION)
    && (s.visual.kind == Video ==> s.visual.duration == m.videoDuration(s.visual.file))
    && (s.visual.file in m.catalog.Values || (m.hasDefault && s.visual.file == DEFAULT_VIDEO && s.visual.kind == Video))
    && "English: " <= s.caption.image.text
  }

  lemma WordSegmentsWellFormed(m: Media, word: string)
    ensures forall i :: 0 <= i < |WordSegments(m, word)| ==> WellFormed(m, WordSegments(m, word)[i])
  {
    WordSegmentsCases(m, word);
    var r := ResolvedKeys(m.catalog, Keys(word));
    forall i | 0 <= i < |r|
      ensures WellFormed(m, KeySegment(m, r[i]))
    {
      var a := Lookup(m.catalog, r[i]).value;
      assert a.file == m.catalog[r[i] + EXTENSIONS[a.index]];
    }
  }

  lemma {:induction false} TimelineWellFormed(m: Media, words: seq<string>)
    ensures forall i :: 0 <= i < |Timeline(m, words)| ==> WellFormed(m, Timeline(m, words)[i])
    decreases |words|
  {
    if words != [] {
      var front := words[..|words| - 1];
      var last := words[|words| - 1];
      TimelineWellFormed(m, front);
      WordSegmentsWellFormed(m, last);
      var t, u := Timeline(m, front), WordSegments(m, last);
      assert Timeline(m, words) == t + u;
      forall i | 0 <= i < |t + u|
        ensures WellFormed(m, (t + u)[i])
      {
        if i >= |t| {
          assert (t + u)[i] == u[i - |t|];
        }
      }
    }
  }

  /** Matching ignores case on both sides: the word "Hello" against a file
      "HELLO.mp4" probes the same extensions with the same outcome as
      "hello" against "hello.mp4", and the file opened is the one on disk,
      which lowercases to the name that matched. */
  lemma ResolutionIgnoresCase(files: seq<string>, word: string, k: nat)
    requires k < |Keys(word)|
    ensures k < |Keys(Lower(word))| && Keys(Lower(word))[k] == Keys(word)[k]
    ensures var r1 := Lookup(BuildCatalog(files), Keys(word)[k]);
            var r2 := Lookup(BuildCatalog(LowerAll(files)), Keys(word)[k]);
            && r1.Some? == r2.Some?
            && (r1.Some? ==> r1.value.index == r2.value.index && Lower(r1.value.file) == r2.value.file)
  {
    KeysIgnoreCase(word);
    var c1, c2 := BuildCatalog(files), BuildCatalog(LowerAll(files));
    CatalogIgnoresCase(files);
    LookupDependsOnNames(c1, c2, Keys(word)[k]);
    var r1, r2 := Lookup(c1, Keys(word)[k]), Lookup(c2, Keys(word)[k]);
    if r1.Some? {
      var name := Keys(word)[k] + EXTENSIONS[r2.value.index];
      var i :| 0 <= i < |files| && LowerAll(files)[i] == c2[name];
      LowerIdempotent(files[i]);
      assert c2[name] == name;
    }
  }

  /** No extension completes "xyz" to default_video.mp4. */
  lemma NoAssetForXyz(cat: map<string, string>)
    requires cat == BuildCatalog([DEFAULT_VIDEO])
    ensures ResolvedKeys(cat, ["xyz"]) == []
  {
    assert Lower(DEFAULT_VIDEO) == DEFAULT_VIDEO;
    assert cat == map[DEFAULT_VIDEO := DEFAULT_VIDEO];
    forall j | 0 <= j < |EXTENSIONS|
      ensures "xyz" + EXTENSIONS[j] !in cat
    {
      assert ("xyz" + EXTENSIONS[j])[0] == 'x';
    }
  }

  /** With only default_video.mp4 in the directory, the word "xyz" gets
      exactly one segment: the fallback clip captioned "English: xyz". */
  lemma FallbackOnly(m: Media)
    requires m.catalog == BuildCatalog([DEFAULT_VIDEO]) && m.hasDefault
    ensures WordSegments(m, "xyz") == [Fallback(m, "xyz")]
    ensures WordSegments(m, "xyz")[0].visual.file == DEFAULT_VIDEO
    ensures WordSegments(m, "xyz")[0].caption.image.text == "English: xyz"
  {
    NoAssetForXyz(m.catalog);
    KeysOfXyz();
    WordSegmentsCases(m, "xyz");
  }

  /** The three probes of the word "102" against 1.mp4 and 2.png. */
  lemma ProbesOf102(cat: map<string, string>)
    requires cat == map["1.mp4" := "1.MP4", "2.png" := "2.png"]
    ensures Lookup(cat, "1") == Some(Asset(0, "1.MP4"))
    ensures Lookup(cat, "0").None?
    ensures Lookup(cat, "2") == Some(Asset(1, "2.png"))
  {
    assert "1" + EXTENSIONS[0] == "1.mp4";
    forall j | 0 <= j < |EXTENSIONS|
      ensures "0" + EXTENSIONS[j] !in cat
    {
      assert ("0" + EXTENSIONS[j])[0] == '0';
    }
    assert "2" + EXTENSIONS[0] !in cat by {
      assert ("2" + EXTENSIONS[0])[0] == '2' && ("2" + EXTENSIONS[0])[2] == 'm';
      assert "2.png"[2] == 'p';
    }
    assert "2" + EXTENSIONS[1] == "2.png";
  }

  /** Of the keys "1", "0", "2" of the word "102", "1" and "2" resolve. */
  lemma ResolvedOf102(cat: map<string, string>)
    requires cat == map["1.mp4" := "1.MP4", "2.png" := "2.png"]
    ensures ResolvedKeys(cat, ["1", "0", "2"]) == ["1", "2"]
  {
    ProbesOf102(cat);
    var keys: seq<string> := ["1", "0", "2"];
    var one: seq<string> := ["1"];
    assert one[..0] == [] && ResolvedKeys(cat, one) == one;
    assert keys[..2] == ["1", "0"] && keys[..2][..1] == one;
    assert ResolvedKeys(cat, keys[..2]) == one;
  }

  /** With 1.mp4 and 2.png present but no asset for 0, the word "102" gets
      two segments, the video for 1 and then the still for 2; the digit 0
      is passed over without a fallback. */
  lemma DigitsResolveIndependently(m: Media)
    requires m.catalog == map["1.mp4" := "1.MP4", "2.png" := "2.png"]
    ensures |WordSegments(m, "102")| == 2
    ensures WordSegments(m, "102")[0] == Compose(m, Load(m, "1.MP4", Video), "1")
    ensures WordSegments(m, "102")[1] == Compose(m, Load(m, "2.png", Image), "2")
  {
    ProbesOf102(m.catalog);
    ResolvedOf102(m.catalog);
    KeysOf102();
    WordSegmentsCases(m, "102");
  }
}
