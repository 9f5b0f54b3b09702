# ollama-subtitle-translator, modelled in Dafny

The subtitle translator reads an `.srt` file, guessing its encoding. It parses the file into blocks: an index line, a timecode line, then text lines. Each block's text goes to a local Ollama model, with the formatting tags swapped for numbered placeholders `⟨k⟩` first and swapped back afterwards. The translated blocks are written out again. A companion module asks `ffprobe` which subtitle streams a video holds, classifies them as text or image codecs, labels them for display and maps user paths into a Docker volume.

This project models that core and proves its properties:

- `strings.dfy`: the Python string builtins the code leans on, on ASCII. These are `strip`, `isdigit`/`int`, `split`/`join` on one separator, `replace`, `upper`/`lower` and `str(n)`.
- `srt.dfy`: the `SrtBlock` record, the `TIME_RE` matcher, `parse_srt`, and `write_srt` as a pure serialiser. It also holds the parse–serialise round trip.
- `tags.dfy`: the `TAG_RE` matcher, `protect_tags`, `restore_tags`, and the round trip between them together with its precondition.
- `encodings.dfy`: the encoding choice of `read_srt_file` over bytes. UTF-8 well-formedness follows table 3-7 of the Unicode Standard, chapter 3.
- `translation.dfy`: the reply-handling policy of `Translator.translate`, with the HTTP reply as a value, and the block loop of `translate_srt`.
- `video.dfy`: the codec tables, the stream loop and guard order of `probe_subtitle_tracks`, `check_ffmpeg_available`, `resolve_video_path` and `format_track_label`.
- `wrappers.dfy`: an `Option` type for `dict.get` with a default.

The loops of the source are methods with loop invariants, each proved equal to a specification function:

- `ParseSrt` with `SkipBlank`, `CollectText` and `ReadBlock`;
- `WriteSrt`;
- `ProtectTags`;
- `RestoreTags`;
- `TranslateSrt`;
- `CollectTracks`.

`FormatTrackLabel` has no loop. It is a method that appends the label's parts one by one to a local list, as `format_track_label` does, and it is proved equal to joining `LabelParts`.

The properties are lemmas about those functions.

The header of tests/test_parse_srt.py:5-7 lists retry and batch translation, but `translate_srt` has neither, nor a cache. A block is translated with one request, and a failed request leaves its text unchanged. The model follows the code.

The code also lacks some properties one might expect:

- The tag round trip `restore_tags(*protect_tags(x)) == x` needs `x` to hold no `⟨`. `Tags.RestoreNeedsNoOpen` shows a text for which it fails.
- `read_srt_file` does not always succeed:
  - a file with a byte order mark whose rest is not UTF-8 raises;
  - so does a non-UTF-8 file with byte 0x98, which cp1251 leaves undefined.
- A block with no text lines comes back from translation with one empty line, because `"".split("\n")` is `[""]`.

## Model

| member | source | states |
|---|---|---|
| Strings.Strip | translate_srt.py:93 | the stripped string is empty exactly when the input is all whitespace |
| Strings.StripTrimmed | translate_srt.py:98 | a stripped string neither starts nor ends with whitespace |
| Strings.StripUnchanged | translate_srt.py:202 | a string without whitespace at either end is its own strip |
| Strings.StripIdempotent | translate_srt.py:108 | stripping twice is stripping once |
| Strings.TrimTrailingNewlines | translate_srt.py:133 | `rstrip("\n")` keeps a prefix, drops only line feeds, and leaves no line feed at the end |
| Strings.TrimLeftChar | video_utils.py:49 | `lstrip("/")` keeps a suffix, drops only that character, and the rest does not start with it |
| Strings.Split | translate_srt.py:86 | a split has at least one piece and no piece holds the separator |
| Strings.SplitJoin | translate_srt.py:69 | splitting the join of parts that avoid the separator gives the parts back |
| Strings.JoinSplit | translate_srt.py:222 | joining the pieces of a split gives the string back |
| Strings.JoinContains | video_utils.py:168 | every part occurs in the joined string |
| Strings.ReplaceJoin | translate_srt.py:85 | replacing a separator whose first character no part contains swaps it throughout the joined string; a lone part must not start with the separator |
| Strings.ReplaceRemoves | translate_srt.py:85 | after replacing one character by another none of the first is left |
| Strings.NatToString | translate_srt.py:129 | `str(n)` is a non-empty run of digits |
| Strings.DecimalOfNatToString | translate_srt.py:102 | `int(str(n)) == n` |
| Strings.NatToStringInjective | translate_srt.py:142 | different numbers have different decimal forms |
| Strings.UpperLeavesNoLower | video_utils.py:162 | `upper()` leaves no ASCII lower-case letter and changes no other character |
| Strings.LowerOfUpper | video_utils.py:66 | lower-casing after upper-casing is plain lower-casing, so the lower-cased suffix test ignores case |
| Strings.UpperOfLower | video_utils.py:162 | upper-casing after lower-casing is plain upper-casing |
| Srt.Text | translate_srt.py:68-69 | no contract of its own; `Srt.TextSplit` shows that splitting it gives the lines back |
| Srt.TextSplit | translate_srt.py:68-69 | splitting a block's text on line feeds gives back its lines, when it has at least one line and none holds a line feed |
| Srt.MatchesTimeAgrees | translate_srt.py:56 | the position-based matcher accepts exactly the strings made of a stamp and the arrow part of `TIME_RE` |
| Srt.TimecodeFromParts | translate_srt.py:56 | stamp, whitespace, `-->`, whitespace, stamp and any rest of line match `TIME_RE` |
| Srt.TimecodeParts | translate_srt.py:56 | every match of `TIME_RE` splits into those parts |
| Srt.MatchesTime | translate_srt.py:56 | no contract of its own; `Srt.MatchesTimeAgrees`, `Srt.TimecodeFromParts` and `Srt.TimecodeParts` tie it both ways to the parts of `TIME_RE` |
| Srt.Normalize | translate_srt.py:85 | no carriage return survives line-ending normalisation |
| Srt.Lines | translate_srt.py:85-86 | there is at least one line and no line holds a line break |
| Srt.LeadingBlankExact | translate_srt.py:93-94 | the blank-skipping count is the only count with blank lines before it and a non-blank line after it |
| Srt.LeadingTextExact | translate_srt.py:115-117 | the text-collecting count is the only count with non-blank lines before it and a blank line after it |
| Srt.SkipBlank | translate_srt.py:93-94 | the inner loop stops at the first non-blank line or at the end, having passed only blank lines |
| Srt.CollectText | translate_srt.py:114-117 | the inner loop collects exactly the lines up to the next blank line or the end |
| Srt.ReadBlock | translate_srt.py:98-120 | one pass of the loop body reads at most one block and resumes the scan where the specification does |
| Srt.Parse | translate_srt.py:83-122 | no contract of its own; `Srt.ParseSrt` ties the cursor loop to it, and `Srt.ParseWellFormed`, `Srt.ParseSerialize` and the malformed-input lemmas state its properties |
| Srt.ParseSrt | translate_srt.py:83-122 | the cursor-driven scanner returns the blocks of the specification parser, all well formed |
| Srt.ParseWellFormed | translate_srt.py:98-119 | every parsed block has a stripped timecode matching `TIME_RE` and non-blank text lines without line breaks |
| Srt.NoIndexNoBlocks | translate_srt.py:99-101 | lines none of which is an index give no blocks |
| Srt.ParseWithoutIndex | translate_srt.py:92-122 | fully malformed input gives no blocks |
| Srt.ParseEmpty | translate_srt.py:85-92 | the empty text gives no blocks |
| Srt.BlankLineSkipped | translate_srt.py:93-94 | a blank line in front changes nothing |
| Srt.NonIndexLineSkipped | translate_srt.py:99-101 | a non-index line is skipped and parsing resumes on the next line |
| Srt.BadTimecodeDropsIndex | translate_srt.py:108-111 | an index line followed by a line that is not a timecode loses both lines |
| Srt.LineEndingsAgree | translate_srt.py:85 | a file that uses CR LF or lone CR line endings throughout parses exactly like the same file with LF |
| Srt.Serialize | translate_srt.py:133 | the output ends with exactly one line feed, and no blocks give `"\n"` |
| Srt.WriteSrt | translate_srt.py:127-133 | building `out_lines` block by block and rendering them gives the serialised text |
| Srt.OutLinesSnoc | translate_srt.py:128-132 | each block adds its index, timecode, lines and a blank separator after the lines before it |
| Srt.SerializeJoins | translate_srt.py:133 | for printable blocks the trailing `rstrip` removes only the last separator |
| Srt.LinesOfSerialize | translate_srt.py:85-86 | the scanner sees exactly the output lines in serialised blocks |
| Srt.ParseBlockLines | translate_srt.py:98-120 | a well-formed block in front of any lines is read back as itself |
| Srt.ParseOutLines | translate_srt.py:92-122 | the output lines of well-formed blocks parse back to those blocks |
| Srt.ParseSerialize | translate_srt.py:83-133 | serialising well-formed blocks and parsing the text gives the same blocks, non-sequential indices included |
| Srt.RoundTrip | translate_srt.py:83-133 | parsing the serialisation of a parse gives the same blocks |
| Tags.PlaceholderShape | translate_srt.py:142 | a placeholder opens with `⟨` and holds no other `⟨` |
| Tags.PlaceholderDistinct | translate_srt.py:151 | the placeholder for one number never begins the text at a placeholder for another |
| Tags.NonCloseRunStops | translate_srt.py:58 | `[^>]+` runs up to the first `>` |
| Tags.WordRunStops | translate_srt.py:58 | `\w+` runs up to the first character that is not a word character |
| Tags.TagLenAt | translate_srt.py:58 | the match length at a position stays within the text; `Tags.MatchIsTag` states what it matches |
| Tags.MatchIsTag | translate_srt.py:58 | the matcher finds a match of length m exactly when those m characters are an angle tag or a brace tag |
| Tags.Protect | translate_srt.py:136-145 | no contract of its own; `Tags.ProtectTags`, `Tags.ScanTag`, `Tags.ScanChar`, `Tags.ProtectedTagsAreTags` and `Tags.RestoreProtect` state its meaning |
| Tags.ProtectTags | translate_srt.py:136-145 | the substitution loop returns the specification's protected text and tag list |
| Tags.ScanTag | translate_srt.py:140-142 | a match appends placeholder number len(tags) and appends the match to the tags |
| Tags.ScanChar | translate_srt.py:144 | a character outside every match is kept |
| Tags.ProtectedTagsAreTags | translate_srt.py:141 | every recorded tag is a match of `TAG_RE` |
| Tags.ProtectWithoutTags | translate_srt.py:144-145 | text with neither `<` nor `{`, the empty text included, is unchanged and records no tag |
| Tags.ProtectedFirst | translate_srt.py:144 | protected text starts with the original's first character or with `⟨` |
| Tags.ProtectedLast | translate_srt.py:144 | protected text is empty only for empty input, and ends with the original's last character or with `⟩` |
| Tags.Restored | translate_srt.py:148-152 | no contract of its own; `Tags.RestoreTags`, `Tags.RestoreRounds` and `Tags.RestoreProtect` state its meaning |
| Tags.RestoreTags | translate_srt.py:148-152 | the loop replaces `⟨i⟩` by `tags[i]` for i = 0, 1, … in turn |
| Tags.RestoreEmpty | translate_srt.py:148-152 | restoring into an empty text gives the empty text |
| Tags.ReplaceRound | translate_srt.py:151 | round n of the loop swaps back exactly the tag numbered n |
| Tags.RestoreRounds | translate_srt.py:150-151 | after n rounds exactly the tags numbered below n are back in place |
| Tags.RestoreProtect | translate_srt.py:136-152 | restoring a protection gives the original, for every text without `⟨` |
| Tags.RestoreNeedsNoOpen | translate_srt.py:136-152 | for `<a⟨1⟩b><c>` the round trip gives `<a<c>b><c>`, not the original |
| Tags.ProtectExample | translate_srt.py:136-145 | `<a⟨1⟩b><c>` is protected as `⟨0⟩⟨1⟩` with the two tags in order |
| Encodings.CharLen | translate_srt.py:78 | a well-formed UTF-8 character is one to four bytes long and lies within the input |
| Encodings.ReadSrtEncoding | translate_srt.py:72-80 | a BOM gives utf-8-sig, otherwise valid UTF-8 gives utf-8, otherwise cp1251; the read fails exactly when the chosen decoder rejects the bytes |
| Encodings.AsciiReadsAsUtf8 | translate_srt.py:77-78 | ASCII bytes are read as utf-8 without error |
| Encodings.BomIsUtf8 | translate_srt.py:75-78 | the BOM is itself valid UTF-8, so only the order of the tests makes such bytes utf-8-sig |
| Encodings.BomWins | translate_srt.py:75-76 | bytes with a BOM are utf-8-sig whatever follows, and the read succeeds exactly when the rest is UTF-8 |
| Encodings.ContinuationFirstInvalid | translate_srt.py:78-79 | bytes starting with a continuation byte are not UTF-8 |
| Encodings.Cp1251Example | translate_srt.py:79-80 | Russian text in cp1251 is not UTF-8 and is read as cp1251 |
| Translation.Prompt | translate_srt.py:190 | no contract of its own; `Translation.PromptCarries` states what it holds |
| Translation.PromptCarries | translate_srt.py:190 | the prompt names the target language and ends with a blank line and the protected text |
| Translation.Translate | translate_srt.py:183-203 | no contract of its own; see `Translation.BlankNotSent`, `Translation.FailureKeepsText`, `Translation.SuccessRestores`, `Translation.MissingResponseEmpty` and `Translation.EchoRestores` |
| Translation.Request | translate_srt.py:185-196 | a request is made exactly when the text is not all whitespace |
| Translation.BlankNotSent | translate_srt.py:185-186 | whitespace-only text is not sent and comes back unchanged, whatever the reply |
| Translation.FailureKeepsText | translate_srt.py:198-200 | a status other than 200 returns the original text |
| Translation.SuccessRestores | translate_srt.py:202-203 | a 200 reply gives the stripped response with the original's tags put back |
| Translation.MissingResponseEmpty | translate_srt.py:202 | a 200 reply without a response field translates any non-blank text to the empty string |
| Translation.EchoRestores | translate_srt.py:188-203 | a backend that echoes the protected text returns the original, for text without `⟨` and without whitespace at either end |
| Translation.TranslateBlock | translate_srt.py:221-227 | a translated block keeps the index and the timecode |
| Translation.TranslatedLines | translate_srt.py:222 | a translated block has at least one line and no line holds a line feed |
| Translation.TranslateSrt | translate_srt.py:217-227 | the loop translates block i with reply i, in order |
| Translation.TranslateAll | translate_srt.py:220-227 | no contract of its own; `Translation.TranslateSrt` ties the loop to it and `Translation.TranslateAllKeeps` states its properties |
| Translation.TranslateAllKeeps | translate_srt.py:220-227 | the block count and every block's index and timecode are kept |
| Translation.FailedBlockUnchanged | translate_srt.py:198-200 | a parsed block with text whose request fails is written back exactly as read |
| Translation.EmptyBlockGainsLine | translate_srt.py:222 | a block without text lines comes back with one empty line |
| Video.CodecTablesDisjoint | video_utils.py:18-21 | no codec is both a text codec and an image codec |
| Video.TrackOf | video_utils.py:99-112 | a track copies the stream's index, codec, language and title, with defaults 0, "unknown", "" and ""; it is text exactly for a text codec and image exactly for an image codec |
| Video.TrackKind | video_utils.py:110-111 | no track is both text and image, and a stream without a codec name gives neither |
| Video.Tracks | video_utils.py:92-115 | no contract of its own; `Video.CollectTracks`, `Video.TracksNumberSubtitles`, `Video.SubtitleStreamsFilter` and `Video.TracksExtend` state its meaning |
| Video.CollectTracks | video_utils.py:92-115 | the stream loop builds the specification's track list |
| Video.TracksNumberSubtitles | video_utils.py:93-113 | the k-th track is the k-th subtitle stream, with sub_index k |
| Video.SubtitleStreamsFilter | video_utils.py:95-97 | a stream is kept exactly when it is a subtitle stream of the probe |
| Video.TracksExtend | video_utils.py:95-115 | later streams never change the tracks built before them |
| Video.NoSubtitleNoTracks | video_utils.py:95-97 | a probe without subtitle streams gives no track |
| Video.SampleTracks | video_utils.py:92-115 | video, audio and three subtitle streams give three tracks numbered 0 to 2 and classified as text, image and text |
| Video.CheckFfmpegAvailable | video_utils.py:41-43 | the tools count as available exactly when both ffprobe and ffmpeg are on PATH |
| Video.OnlyFfprobeIsNotEnough | video_utils.py:43 | ffprobe alone does not count |
| Video.LastIndex | video_utils.py:66 | the last position of a character, or -1, with no occurrence after it |
| Video.BaseName | video_utils.py:66 | the name is a slash-free tail of the path that is either the whole path or starts right after a `/`, so it is the tail after the last `/` |
| Video.Suffix | video_utils.py:66 | no contract of its own; `Video.SuffixShape`, `Video.SuffixOfFile` and `Video.HiddenFileNoSuffix` state its meaning |
| Video.SuffixShape | video_utils.py:66 | a suffix is empty or a dot and a dotless, slashless tail of the path |
| Video.SuffixOfFile | video_utils.py:66 | `dir/stem.ext` has suffix `.ext`, whatever dots the stem holds |
| Video.HiddenFileNoSuffix | video_utils.py:66 | a name whose only dot leads it has no suffix |
| Video.SupportedVideo | video_utils.py:66 | no contract of its own; see `Video.MkvAccepted`, `Video.UpperMkvAccepted` and `Video.TxtRefused` |
| Video.MkvAccepted | video_utils.py:66 | a `.mkv` file passes the extension test |
| Video.UpperMkvAccepted | video_utils.py:66 | the extension test ignores case |
| Video.TxtRefused | video_utils.py:66-67 | a `.txt` file fails the extension test, and the error names its suffix |
| Video.JoinPath | video_utils.py:49 | the joined path is the directory, then exactly one `/` or none, then the relative part; the `/` is there exactly when the directory is non-empty, does not end in `/`, and the relative part is non-empty |
| Video.ResolveVideoPath | video_utils.py:46-51 | without a video directory the path is unchanged; with one, the path without its leading slashes is placed under it |
| Video.ResolveIgnoresLeadingSlash | video_utils.py:49 | under a video directory an absolute and a relative path name the same file |
| Video.ResolveUnder | video_utils.py:48-50 | `/videos` and `/home/user/movie.mkv` give `/videos/home/user/movie.mkv` |
| Video.ProbeSubtitleTracks | video_utils.py:54-115 | a missing file is reported first, then an unsupported suffix, then missing tools, then a failed run; only when all pass are the tracks returned |
| Video.ProbeFindsSubtitles | video_utils.py:92-115 | a successful probe reports every subtitle stream, numbered from 0, with its stream index |
| Video.SampleProbe | video_utils.py:62-115 | a probe of a `.mkv` file with the sample streams gives the three tracks |
| Video.GuardOrder | video_utils.py:62-87 | with every later check failing too, the earliest failing check decides the error |
| Video.LabelParts | video_utils.py:160-167 | a label always has at least one part |
| Video.FormatTrackLabel | video_utils.py:158-168 | the label is the upper-cased language, the title, `[codec]` and, for image tracks, the warning, joined by " - " in that order, with empty language and title left out; `[codec]` is always a part, so the `Track N` fallback cannot be reached |
| Video.LabelShape | video_utils.py:160-168 | the label is the head, then `[codec]`, then ` - (image-based, cannot extract)` exactly for image tracks |
| Video.LabelMarksImage | video_utils.py:166-167 | a label ends in `)` exactly for image tracks and in `]` otherwise |
| Video.LabelStart | video_utils.py:161-162 | a label starts with the upper-cased language when there is one |
| Video.LabelMentions | video_utils.py:160-168 | the language, the title, `[codec]` and, for image tracks, the warning all occur in the label |

## Left out

- app.py is not part of this model. Its web routes, worker threads and task table are outside the translator core, and its own parser and serialiser repeat those of translate_srt.py.
- `Translator.__init__`, the HTTP calls and their timeouts are left out. The reply of `/api/generate` is a parameter (`Translation.Reply`). Transport errors and JSON decoding errors, which the code does not catch, are not modelled.
- Translation.Translate: the prompt is modelled (`Translation.Prompt`), but the model text is an input, so nothing is proved about what the model returns.
- Translation.TranslateSrt: the reply for a block whose text is blank is supplied but never used, because no request is made for it.
- Encodings.ReadSrtEncoding: this models which codec is chosen and whether its decoder accepts the bytes, not the decoded characters. cp1251 is modelled only by its one undefined byte, 0x98.
- Strings: `strip`, `isdigit`, the `\d`, `\s` and `\w` regex classes, and `upper`/`lower` follow their ASCII meaning. Python's Unicode digits, spaces and case mappings are not modelled.
- File reads and writes, `print` output, the progress bar, `argparse`, `main` and its language-code table are not part of this model.
- Srt.Serialize: the output file's encoding argument is not modelled.
- Video: `subprocess.run`, `shutil.which`, `Path.exists` and `json.loads` are inputs: `Video.ProbeEnv` holds the existence test, the commands on PATH, the return code and the decoded streams.
- Video.ProbeSubtitleTracks: exception messages are reduced to the suffix and the return code. ffprobe's stderr text is not kept.
- Video.ProbeSubtitleTracks: a JSON value of an unexpected type in a stream record is not modelled. Every field is either absent or of the type the code expects.
- `extract_subtitle_track` is left out. It is subprocess plumbing with no logic beyond the tool check modelled by `Video.CheckFfmpegAvailable`.
- Video.Suffix: it follows `PurePath.suffix` on POSIX paths. The path normalisation that `Path` applies first (repeated `/`, `.` segments, a trailing `/`) is not modelled.
- Video.ResolveVideoPath: `Path(VIDEO_DIR) / rel` is rendered as plain string joining. pathlib's normalisation of `VIDEO_DIR` and of the result is not modelled.
- Video.ProbeSubtitleTracks: a `subprocess.TimeoutExpired` from the 30-second ffprobe timeout (video_utils.py:84) is not modelled. The outcome type has no case for it.
- Video.ProbeSubtitleTracks: ffprobe output that is not JSON, which makes `json.loads` raise (video_utils.py:89), is not modelled. The decoded streams are an input.
- Translation.Translate: a reply whose `"response"` is JSON `null` is not modelled. The code would raise on `.strip()` (translate_srt.py:202); the model only knows a string or an absent field.
- Srt.SrtBlock: the index is a `nat`. `parse_srt` only produces non-negative indices, but `write_srt` would also accept a negative Python int, which the model cannot express.
- Tests that exercise functions the source does not define are not modelled: request retry, batch translation, constructor context and temperature, `__TAG__` placeholders, and a dictionary of tags.
