# Audio to sign-language video: the clip assembly core

`sih.py` turns a speech transcript into a sign-language video. The transcript is split
into words. Each word maps to one or more lookup keys:

- an all-digit word gives one key per digit;
- any other word gives one key, the word lowercased.

Each key is probed in the media directory with the extensions `.mp4`, `.png`, `.jpg` and
`.jpeg`, in that order, and file names are compared case-insensitively. The first file
found becomes a clip:

- a video plays for its own duration;
- a still image is held for two seconds.

Every clip has its audio stripped and is paired with a caption card "English: <key>". The
card is drawn centred on a 640 x 100 canvas and lasts as long as the clip. A word none of
whose keys resolve gets `default_video.mp4` captioned with the word itself, when that file
exists. Otherwise the word gets nothing. The output file is written only if at least one
clip was built.

The model has six modules:

- `Text`: ASCII models of `str.split()`, `str.isspace`, `str.isdigit` and `str.lower`.
- `Tokens`: `split_numeric_word` and the keys of a word.
- `Catalog`: the lowercased directory index and the extension probe.
- `Caption`: the centring arithmetic of `create_text_image`.
- `Segments`: a value-level specification of what one key, one word and a whole
  transcript contribute.
- `Pipeline`: `generate_combined_video` written as imperative methods. They have the
  source's loops, its `video_added` flag and its inner `break`. Each method is proved equal
  to the specification in `Segments`.

The source runs the word loop, the key loop and the extension loop inside one function.
The model keeps the three loops as three methods: `GenerateCombinedVideo`, `AddKeys` and
`AddPart`. `AddWord` and `AddFallback` hold the per-word code around the key loop. This
keeps each proof small.

The environment is passed in as inputs:

- whether the media directory exists;
- its listing, or that `os.listdir` failed (the path exists but is not a readable directory);
- whether `default_video.mp4` exists;
- a clip-duration function;
- a text-extent function, standing for `cv2.getTextSize`.

The `break` at `sih.py:100` leaves only the extension loop, not the loop over a word's
digits. So every digit of a number that has an asset gets its own clip, and the fallback
is used only when no digit resolves. See `Pipeline.AddPart`, `Pipeline.AddKeys` and
`Segments.DigitsResolveIndependently`.

## Model

| member | source | states |
|---|---|---|
| Text.LowerChar | sih.py:70 | lowercasing one character leaves no capital; it changes only A-Z, each by the fixed ASCII offset; it keeps digits digits and spaces spaces |
| Text.Lower | sih.py:70 | `word.lower()` keeps the length and folds each character separately |
| Text.LowerIsLowercase | sih.py:70 | a lowered string has no capitals; a string with none is its own lowering |
| Text.LowerIdempotent | sih.py:61 | lowering twice is lowering once |
| Text.IsSpace | sih.py:69 | the ASCII whitespace set of `str.isspace`; used by Text.Split and stated through its lemmas |
| Text.IsDigit | sih.py:50 | `char.isdigit()` on ASCII; stated through Tokens.SplitNumericWordOne and Tokens.IsNumeric |
| Text.DropSpaces | sih.py:69 | removing leading whitespace never lengthens the input; what remains starts with a non-space |
| Text.DropSpacesSkipsSpaces | sih.py:69 | what is dropped is a run of whitespace at the front; what is kept is the rest of the input, unchanged |
| Text.Word | sih.py:69 | the first token is a prefix of the input with no whitespace, ended by whitespace or the end of input |
| Text.Split | sih.py:69 | `transcript.split()`; no contract of its own: Text.SplitEmpty, Text.SplitLeadingSpace and Text.SplitTokenThen fix it on every input, and Text.SplitYieldsTokens, Text.SplitKeepsText and Text.SplitJoin state its properties |
| Text.SplitEmpty | sih.py:69 | the empty transcript splits into no words |
| Text.SplitLeadingSpace | sih.py:69 | any leading whitespace character is skipped without effect |
| Text.SplitTokenThen | sih.py:69 | a token followed by whitespace or the end gives that token, then whatever the rest splits into |
| Text.SplitYieldsTokens | sih.py:69 | every word `transcript.split()` yields is non-empty and holds no whitespace |
| Text.SplitKeepsText | sih.py:69 | splitting drops only whitespace: the words put together are the transcript's non-space characters, in order |
| Text.SplitJoin | sih.py:69 | words joined by single spaces split back into the same words |
| Text.NonSpacesAppend | sih.py:69 | the non-space characters of a concatenation are those of each part, in order |
| Tokens.SplitNumericWord | sih.py:49-50 | at most one key per character, each a single digit; none for a word without digits; for an all-digit word exactly its characters, in order (for any word, Tokens.SplitNumericWordOne with Tokens.SplitNumericWordAppend) |
| Tokens.SplitNumericWordOne | sih.py:50 | one character gives itself as a key if it is a digit, nothing otherwise |
| Tokens.SplitNumericWordAppend | sih.py:50 | the digits of a concatenation are those of the first part, then those of the second: with the one-character case, the result is exactly the word's digit characters in order, for any word |
| Tokens.MixedWordDigits | sih.py:50 | "a1b2" gives "1", "2" |
| Tokens.IsNumeric | sih.py:74 | `word.isdigit()`: non-empty, all digits; stated through Tokens.Keys |
| Tokens.Keys | sih.py:73-77 | an all-digit word gives its digits, one key each, in order; any other word gives exactly one key, the word lowercased; every key is lowercase; a non-empty word has at least one key |
| Tokens.LowerKeepsNumeric | sih.py:74 | lowering does not change whether a word is all digits, and leaves an all-digit word as it is |
| Tokens.KeysIgnoreCase | sih.py:70-77 | "Hello" and "hello" give the same keys |
| Tokens.KeysExamples | sih.py:73-77 | "305" gives "3", "0", "5"; "Hello" gives "hello" |
| Tokens.KeysOf102 | sih.py:73-75 | "102" gives "1", "0", "2" |
| Tokens.KeysOfXyz | sih.py:76-77 | "xyz" gives the single key "xyz" |
| Catalog.BuildCatalog | sih.py:61 | every listed file is indexed under its lowercased name, and every entry holds a listed file that lowercases to its key |
| Catalog.CatalogLastWins | sih.py:61 | when two files lowercase alike, the later one in the listing is stored |
| Catalog.LookupFrom | sih.py:81-83 | the probe returns the first extension, in the fixed order, that completes the key to an indexed name, with the file stored there; it returns nothing only if no extension does |
| Catalog.Lookup | sih.py:81-83 | the probe from the first extension; its properties are Catalog.LookupFrom, Catalog.LookupFindsAny and Catalog.VideoWins |
| Catalog.KindAt | sih.py:87-90 | the `if ext == '.mp4'` branch: the first extension loads a video, the others a still; stated through Catalog.VideoWins and Segments.WordSegmentsWellFormed |
| Catalog.LookupFindsAny | sih.py:81-83 | a key resolves iff some extension completes it to an indexed name |
| Catalog.VideoWins | sih.py:81-88 | if key.mp4 exists it is chosen over any image, as a video |
| Catalog.LookupDependsOnNames | sih.py:83 | which extension matches depends only on the indexed names |
| Catalog.LowerAll | sih.py:61 | each file name lowercased, position by position |
| Catalog.CatalogIgnoresCase | sih.py:61 | renaming every file to lower case leaves the set of indexed names unchanged |
| Caption.CreateTextImage | sih.py:30-41 | the canvas is 640 x 100; the text's left margin is its right margin or one less; the baseline centres the text box vertically the same way |
| Caption.WideTextOverhangs | sih.py:40 | a text wider than the canvas gets a negative x origin, half the overhang rounded up |
| Segments.ResolvedKeys | sih.py:80-83 | the resolving keys of a word: no more than there are keys, all resolving, and empty iff no key resolves; that each resolving key is kept, in order, is Segments.ResolvedKeysOne with Segments.ResolvedKeysAppend |
| Segments.ResolvedKeysOne | sih.py:83 | a single key is kept exactly when it resolves |
| Segments.ResolvedKeysAppend | sih.py:80-83 | resolution works key by key: the resolving keys of a concatenation are those of the first part, then those of the second |
| Segments.Load | sih.py:87-90 | VideoFileClip for a video, with its own duration and audio; ImageClip held 2 s for a still; stated through Segments.WordSegmentsWellFormed |
| Segments.Compose | sih.py:93-97 | audio stripped, caption "English: " + the shown text, caption as long as the visual, at the bottom centre; stated through Segments.WordSegmentsWellFormed |
| Segments.CaptionText | sih.py:93 | the caption text `f"English: {part}"`, and `f"English: {word}"` at sih.py:107; stated through Segments.FallbackOnly and Segments.WordSegmentsWellFormed |
| Segments.CaptionImage | sih.py:93 | `create_text_image` of the caption text at its measured size (`cv2.getTextSize`, sih.py:37); stated through Caption.CreateTextImage |
| Segments.KeySegment | sih.py:81-98 | the clip for a resolving key, from the file the probe found; stated through Segments.KeySegmentsResolved |
| Segments.Fallback | sih.py:104-112 | the default-video clip captioned with the word; stated through Segments.WordSegmentsCases and Segments.FallbackOnly |
| Segments.KeySegments | sih.py:80-100 | the clips of a word's key loop; its properties are Segments.KeySegmentsResolved and Segments.KeySegmentsStep |
| Segments.KeySegmentsResolved | sih.py:80-98 | one clip per resolving key, in key order, each built from that key's file and captioned with that key |
| Segments.KeySegmentsStep | sih.py:80-100 | a resolving key appends exactly its clip; an unresolved key appends nothing |
| Segments.WordSegmentsCases | sih.py:69-112 | a word with resolving keys gets exactly one clip per such key; otherwise it gets the fallback captioned with the word if default_video.mp4 exists, else nothing |
| Segments.WordSegmentsEmpty | sih.py:102-104 | a word contributes nothing iff none of its keys resolve and there is no default video |
| Segments.WordSegments | sih.py:69-112 | one word's contribution; its properties are Segments.WordSegmentsCases, Segments.WordSegmentsEmpty and Segments.WordSegmentsWellFormed |
| Segments.FlattenAppend | sih.py:69 | the loop over the words of two transcripts in a row builds the first's clips, then the second's |
| Segments.FlattenEmpty | sih.py:69 | the loop builds nothing iff no word contributes anything |
| Segments.FlattenStep | sih.py:69 | one more word appends that word's contribution |
| Segments.FlattenAt | sih.py:69 | a word's contribution sits between those of the earlier words and those of the later ones |
| Segments.Timeline | sih.py:69-112 | the clips list after the word loop; its properties are the Segments.Timeline* lemmas below |
| Segments.TimelineStep | sih.py:69-112 | one more transcript word appends exactly that word's clips |
| Segments.TimelineAppend | sih.py:69-112 | clips follow transcript order: two transcripts in a row give the first's clips, then the second's |
| Segments.TimelineAt | sih.py:69-112 | each word's clips form one block, after every earlier word's and before every later word's |
| Segments.TimelineCount | sih.py:69-112 | the number of clips is the number of resolving keys, plus one per unresolved word when the default video exists |
| Segments.TimelineBound | sih.py:69-112 | there are never more clips than keys |
| Segments.TimelineEmpty | sih.py:69-115 | no clip is built iff, for every word, no key resolves and there is no default video |
| Segments.WordSegmentsWellFormed | sih.py:87-112 | every clip of a word: audio stripped; caption as long as the visual and at the bottom centre; a still held 2 s; a video for its own duration; the file is an indexed one or the default video; a caption starting "English: " |
| Segments.TimelineWellFormed | sih.py:69-112 | the same for every clip of a transcript |
| Segments.ResolutionIgnoresCase | sih.py:61-88 | matching ignores case on both sides, and the file opened is the on-disk one, which lowercases to the matched name |
| Segments.NoAssetForXyz | sih.py:81-83 | with only default_video.mp4 present, the key "xyz" does not resolve |
| Segments.FallbackOnly | sih.py:102-112 | with only default_video.mp4 present, "xyz" gets exactly the fallback clip captioned "English: xyz" |
| Segments.ProbesOf102 | sih.py:81-83 | with 1.mp4 and 2.png present, "1" finds the video, "0" finds nothing, "2" finds the still |
| Segments.ResolvedOf102 | sih.py:80-83 | of the keys of "102", "1" and "2" resolve |
| Segments.DigitsResolveIndependently | sih.py:74-100 | "102" gets two clips, the video for 1 then the still for 2; the unresolved 0 is passed over and there is no fallback |
| Pipeline.Assemble | sih.py:115-120 | the output is written iff the clip list is non-empty, to the given path, with the clips in order |
| Pipeline.AddPart | sih.py:81-100 | the extension loop appends exactly the key's clip and reports a hit iff the key resolves; otherwise it leaves the list unchanged |
| Pipeline.AddKeys | sih.py:79-100 | the loop over a word's keys appends exactly the clips for its resolving keys, in order; the `video_added` flag is set iff it appended any |
| Pipeline.AddWord | sih.py:70-112 | one iteration of the word loop appends exactly that word's contribution |
| Pipeline.AddFallback | sih.py:104-112 | appends exactly the default-video clip captioned with the word |
| Pipeline.GenerateCombinedVideo | sih.py:53-120 | a missing directory builds nothing; a directory that exists but cannot be listed stops the run before any clip; otherwise the outcome is the assembly of the whole transcript's clips, in word order and key order |
| Pipeline.WrittenIff | sih.py:69-120 | the output is written iff some word has a resolving key, or some word exists and the default video exists |
| Pipeline.NothingResolvesNothingWritten | sih.py:102-120 | when no key of any word resolves and there is no default video, nothing is written |
| Pipeline.ClipsAtMostKeys | sih.py:69-100 | a run never builds more clips than the transcript has keys |

## Left out

- The Streamlit user interface: upload, temporary file and `st.write` messages (`sih.py:122-151`). These are I/O with no effect on which clips are built.
- Speech recognition (`recognize_speech_from_file`). The transcript is an input.
- Decoding and encoding media with moviepy. A clip is represented by its file, its kind, its duration and whether it has audio. The nested `concatenate_videoclips(..., method="compose")` places the caption card after the visual in time. The model records the pair and the durations, not the composed timeline.
- Clip durations are floating point in moviepy. The model has a natural-number function of the file instead.
- Drawing pixels with `np.zeros` and `cv2.putText`. Font metrics (`cv2.getTextSize`) are an input. Only the canvas size, the text and the origin are modelled.
- `os.path.exists`, `os.listdir` and `os.path.join`. The listing (or its failure) and the two existence checks are inputs, and files are named relative to the media directory. Which error `os.listdir` raises is not modelled, only that the uncaught exception stops the run before any clip.
- `str.isdigit`, `str.lower` and `str.isspace` are modelled on ASCII. Python's Unicode digit, case and space classes are not modelled.
- A media file that exists but cannot be decoded raises an exception from moviepy. The source does not catch it, so the model has no error path for it.
