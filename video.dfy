/**
 * The ffprobe side of video_utils: which subtitle streams a probe reports as
 * tracks, how they are numbered and classified, the order in which
 * probe_subtitle_tracks rejects its input, the Docker path mapping and the
 * label shown for a track. The probe itself (the subprocess, its JSON output)
 * enters as values.
 */
module Video {

  import opened Wrappers
  import opened Strings

  // ---------------------------------------------------------------- codec tables

  /** Codecs that can be extracted as text SRT. */
  const TextCodecs: set<string> := {"subrip", "ass", "ssa", "mov_text", "webvtt", "text"}

  /** Image-based codecs that cannot be extracted as text. */
  const ImageCodecs: set<string> := {"hdmv_pgs_subtitle", "dvd_subtitle", "dvb_subtitle", "pgssub"}

  /** Container extensions probe_subtitle_tracks accepts, in lower case. */
  const SupportedVideoExtensions: set<string> := {".mkv", ".mp4", ".avi", ".mov", ".webm", ".ts", ".m2ts"}

  /** No codec is both text and image. */
  lemma CodecTablesDisjoint()
    ensures TextCodecs * ImageCodecs == {}
  {
  }

  // ---------------------------------------------------------------- streams and tracks

  /** The "tags" object of one ffprobe stream; a key may be absent. */
  datatype StreamTags = StreamTags(language: Option<string>, title: Option<string>)

  /** One entry of ffprobe's "streams" array; every key may be absent. */
  datatype Stream = Stream(index: Option<int>, codecName: Option<string>,
                           codecType: Option<string>, tags: Option<StreamTags>)

  /** One subtitle stream found in a video file. */
  datatype SubtitleTrack = SubtitleTrack(index: int, subIndex: nat, codecName: string,
                                         language: string, title: string,
                                         isText: bool, isImage: bool)

  /** stream.get("codec_type") == "subtitle". */
  predicate IsSubtitle(s: Stream)
  {
    s.codecType == Some("subtitle")
  }

  /** The track built for a subtitle stream that is the k-th subtitle stream. */
  function TrackOf(s: Stream, k: nat): (t: SubtitleTrack)
    ensures t.subIndex == k
    ensures t.index == s.index.GetOr(0)
    ensures t.codecName == s.codecName.GetOr("unknown")
    ensures t.language == s.tags.GetOr(StreamTags(None, None)).language.GetOr("")
    ensures t.title == s.tags.GetOr(StreamTags(None, None)).title.GetOr("")
    ensures t.isText <==> t.codecName in TextCodecs
    ensures t.isImage <==> t.codecName in ImageCodecs
  {
    var codec := s.codecName.GetOr("unknown");
    var tags := s.tags.GetOr(StreamTags(None, None));
    SubtitleTrack(s.index.GetOr(0), k, codec, tags.language.GetOr(""), tags.title.GetOr(""),
                  codec in TextCodecs, codec in ImageCodecs)
  }

  /** A track is never both text-extractable and image-based; a stream without a codec name is neither. */
  lemma TrackKind(s: Stream, k: nat)
    ensures !(TrackOf(s, k).isText && TrackOf(s, k).isImage)
    ensures s.codecName == None ==> !TrackOf(s, k).isText && !TrackOf(s, k).isImage
  {
    CodecTablesDisjoint();
  }

  /** The subtitle streams of a probe, in their order (the filter the loop applies). */
  function SubtitleStreams(streams: seq<Stream>): seq<Stream>
  {
    if streams == [] then []
    else
      var n := |streams| - 1;
      SubtitleStreams(streams[..n]) + (if IsSubtitle(streams[n]) then [streams[n]] else [])
  }

  /** The tracks the loop of probe_subtitle_tracks has built after the given streams. */
  function Tracks(streams: seq<Stream>): seq<SubtitleTrack>
  {
    if streams == [] then []
    else
      var n := |streams| - 1;
      var done := Tracks(streams[..n]);
      if IsSubtitle(streams[n]) then done + [TrackOf(streams[n], |done|)] else done
  }

  /** The loop of probe_subtitle_tracks (lines 92-115) over the decoded streams. */
  method CollectTracks(streams: seq<Stream>) returns (tracks: seq<SubtitleTrack>)
    ensures tracks == Tracks(streams)
  {
    tracks := [];
    var subCounter: nat := 0;
    var i := 0;
    while i < |streams|
      invariant i <= |streams|
      invariant subCounter == |tracks|
      invariant tracks == Tracks(streams[..i])
    {
      var stream := streams[i];
      assert streams[..i + 1][..i] == streams[..i];
      if stream.codecType != Some("subtitle") {
        i := i + 1;
        continue;
      }
      tracks := tracks + [TrackOf(stream, subCounter)];
      subCounter := subCounter + 1;
      i := i + 1;
    }
    assert streams[..i] == streams;
  }

  /**
   * The tracks are exactly the subtitle streams, in order, and the k-th of them
   * has sub_index k.
   */
  lemma {:induction false} TracksNumberSubtitles(streams: seq<Stream>)
    ensures |Tracks(streams)| == |SubtitleStreams(streams)|
    ensures forall k :: 0 <= k < |Tracks(streams)| ==>
      Tracks(streams)[k] == TrackOf(SubtitleStreams(streams)[k], k)
  {
    if streams != [] {
      TracksNumberSubtitles(streams[..|streams| - 1]);
    }
  }

  /** A stream is kept exactly when it is a subtitle stream of the probe. */
  lemma {:induction false} SubtitleStreamsFilter(streams: seq<Stream>, s: Stream)
    ensures s in SubtitleStreams(streams) <==> s in streams && IsSubtitle(s)
  {
    if streams != [] {
      var n := |streams| - 1;
      SubtitleStreamsFilter(streams[..n], s);
      assert streams == streams[..n] + [streams[n]];
    }
  }

  /** Streams after the last one do not change the tracks before them. */
  lemma {:induction false} TracksExtend(streams: seq<Stream>, more: seq<Stream>)
    ensures Tracks(streams) <= Tracks(streams + more)
    decreases |more|
  {
    if more != [] {
      var n := |more| - 1;
      TracksExtend(streams, more[..n]);
      var m := streams + more;
      assert m[..|m| - 1] == streams + more[..n];
      var a := Tracks(streams);
      var b := Tracks(streams + more[..n]);
      var c := Tracks(m);
      assert a == b[..|a|];
      assert b == c[..|b|];
      assert c[..|b|][..|a|] == c[..|a|];
      assert a == c[..|a|];
    } else {
      assert streams + more == streams;
    }
  }

  /** A probe with no subtitle stream reports no track. */
  lemma {:induction false} NoSubtitleNoTracks(streams: seq<Stream>)
    requires forall i :: 0 <= i < |streams| ==> !IsSubtitle(streams[i])
    ensures Tracks(streams) == []
  {
    if streams != [] {
      NoSubtitleNoTracks(streams[..|streams| - 1]);
    }
  }

  // ---------------------------------------------------------------- tools and paths

  /** check_ffmpeg_available, with the set of commands shutil.which finds on PATH. */
  function CheckFfmpegAvailable(onPath: set<string>): (b: bool)
    ensures b ==> "ffprobe" in onPath
    ensures b ==> "ffmpeg" in onPath
    ensures "ffprobe" in onPath && "ffmpeg" in onPath ==> b
  {
    "ffprobe" in onPath && "ffmpeg" in onPath
  }

  /** With only ffprobe on PATH the tools count as missing. */
  lemma OnlyFfprobeIsNotEnough()
    ensures !CheckFfmpegAvailable({"ffprobe"})
  {
    assert "ffmpeg" !in {"ffprobe"};
  }

  /** The position of the last c in s, or -1 (str.rfind). */
  function LastIndex(s: string, c: char): (r: int)
    ensures -1 <= r < |s|
    ensures r >= 0 ==> s[r] == c
    ensures forall j :: r < j < |s| ==> s[j] != c
  {
    if s == [] then -1
    else if s[|s| - 1] == c then |s| - 1
    else LastIndex(s[..|s| - 1], c)
  }

  /** The last c of a + [c] + b, when b has none, is the one after a. */
  lemma LastIndexAfter(a: string, c: char, b: string)
    requires c !in b
    ensures LastIndex(a + [c] + b, c) == |a|
  {
    var s := a + [c] + b;
    var r := LastIndex(s, c);
    assert s[|a|] == c;
  }

  /** PurePath.name: the text after the last '/'. */
  function BaseName(p: string): (name: string)
    ensures '/' !in name
    ensures |name| <= |p| && name == p[|p| - |name|..]
    ensures |name| == |p| || p[|p| - |name| - 1] == '/'
  {
    p[LastIndex(p, '/') + 1..]
  }

  /** PurePath.suffix: from the last '.' of the name, unless that dot leads or ends the name. */
  function Suffix(p: string): string
  {
    var name := BaseName(p);
    var i := LastIndex(name, '.');
    if 0 < i < |name| - 1 then name[i..] else []
  }

  /** A suffix is empty, or an extension ending the path. */
  lemma SuffixShape(p: string)
    ensures Suffix(p) == [] || IsExtension(Suffix(p))
    ensures |Suffix(p)| <= |p| && Suffix(p) == p[|p| - |Suffix(p)|..]
  {
    SuffixIsExtension(p);
    SuffixIsTail(p);
  }

  /** Proof helper for SuffixShape: the suffix is an extension when not empty. */
  lemma SuffixIsExtension(p: string)
    ensures Suffix(p) == [] || IsExtension(Suffix(p))
  {
    var name := BaseName(p);
    var i := LastIndex(name, '.');
    if 0 < i < |name| - 1 {
      var r := name[i..];
      assert '.' !in r[1..] by {
        forall j | 0 <= j < |r| - 1
          ensures r[1..][j] != '.'
        {
          assert r[1..][j] == name[i + 1 + j];
        }
      }
      assert '/' !in r by {
        forall j | 0 <= j < |r|
          ensures r[j] != '/'
        {
          assert r[j] == name[i + j];
        }
      }
    }
  }

  /** Proof helper for SuffixShape: the suffix is a tail of the path. */
  lemma SuffixIsTail(p: string)
    ensures |Suffix(p)| <= |p| && Suffix(p) == p[|p| - |Suffix(p)|..]
  {
    var name := BaseName(p);
    var i := LastIndex(name, '.');
    if 0 < i < |name| - 1 {
      var r := name[i..];
      assert p[|p| - |name|..][i..] == p[|p| - |r|..];
    }
  }

  /** A dot and at least one more character, with no '/' and no other dot. */
  predicate IsExtension(ext: string)
  {
    |ext| >= 2 && ext[0] == '.' && '.' !in ext[1..] && '/' !in ext
  }

  /** A file stem + ext in directory dir, ext a dot and a dotless tail, has the suffix ext, whatever dots the stem holds. */
  lemma SuffixOfFile(dir: string, stem: string, ext: string)
    requires stem != [] && '/' !in stem
    requires IsExtension(ext)
    ensures Suffix(dir + "/" + stem + ext) == ext
  {
    var name := stem + ext;
    assert '/' !in name by {
      assert forall j :: 0 <= j < |name| ==> name[j] == (if j < |stem| then stem[j] else ext[j - |stem|]);
    }
    assert dir + "/" + stem + ext == dir + ['/'] + name;
    LastIndexAfter(dir, '/', name);
    assert BaseName(dir + "/" + stem + ext) == name;
    assert name == stem + ['.'] + ext[1..];
    LastIndexAfter(stem, '.', ext[1..]);
    assert name[|stem|..] == ext;
  }

  /** A name whose only dot leads it (a hidden file) has no suffix. */
  lemma HiddenFileNoSuffix(dir: string, rest: string)
    requires '/' !in rest && '.' !in rest
    ensures Suffix(dir + "/" + "." + rest) == []
  {
    assert dir + "/" + "." + rest == dir + ['/'] + ("." + rest);
    LastIndexAfter(dir, '/', "." + rest);
    assert "." + rest == [] + ['.'] + rest;
    LastIndexAfter([], '.', rest);
  }

  /** path.suffix.lower() in SUPPORTED_VIDEO_EXTENSIONS. */
  predicate SupportedVideo(p: string)
  {
    Lower(Suffix(p)) in SupportedVideoExtensions
  }

  /** A .mkv file is accepted. */
  lemma MkvAccepted(dir: string, stem: string)
    requires stem != [] && '/' !in stem
    ensures SupportedVideo(dir + "/" + stem + ".mkv")
  {
    MkvLiterals();
    SuffixOfFile(dir, stem, ".mkv");
  }

  /** The extension test ignores case: a .MKV file is accepted too. */
  lemma UpperMkvAccepted(dir: string, stem: string)
    requires stem != [] && '/' !in stem
    ensures SupportedVideo(dir + "/" + stem + ".MKV")
  {
    UpperMkvLiterals();
    SuffixOfFile(dir, stem, ".MKV");
  }

  /** A text file is refused, and the error names its suffix. */
  lemma TxtRefused(dir: string, stem: string)
    requires stem != [] && '/' !in stem
    ensures Suffix(dir + "/" + stem + ".txt") == ".txt"
    ensures !SupportedVideo(dir + "/" + stem + ".txt")
  {
    TxtLiterals();
    SuffixOfFile(dir, stem, ".txt");
  }

  lemma MkvLiterals()
    ensures IsExtension(".mkv") && Lower(".mkv") == ".mkv"
  {
    var l := Lower(".mkv");
    assert l[0] == '.' && l[1] == 'm' && l[2] == 'k' && l[3] == 'v';
  }

  lemma UpperMkvLiterals()
    ensures IsExtension(".MKV") && Lower(".MKV") == ".mkv"
  {
    var l := Lower(".MKV");
    assert l[0] == '.' && l[1] == 'm' && l[2] == 'k' && l[3] == 'v';
  }

  lemma TxtLiterals()
    ensures IsExtension(".txt") && Lower(".txt") == ".txt" && ".txt" !in SupportedVideoExtensions
  {
    var l := Lower(".txt");
    assert l[0] == '.' && l[1] == 't' && l[2] == 'x' && l[3] == 't';
  }

  /**
   * Path(dir) / rel rendered with '/' separators: one '/' goes between a
   * non-empty directory that does not end in '/' and a non-empty relative part.
   */
  function JoinPath(dir: string, rel: string): (r: string)
    ensures dir <= r
    ensures |rel| <= |r| && r[|r| - |rel|..] == rel
    ensures r == dir + rel || r == dir + "/" + rel
    ensures r == dir + "/" + rel <==> dir != [] && dir[|dir| - 1] != '/' && rel != []
  {
    if rel == [] || dir == [] then dir + rel
    else if dir != [] && dir[|dir| - 1] == '/' then dir + rel
    else dir + "/" + rel
  }

  /**
   * resolve_video_path with VIDEO_DIR as a parameter: without a video directory
   * the path is used as given; with one, the path loses its leading slashes and
   * is placed under the directory.
   */
  function ResolveVideoPath(videoDir: string, userPath: string): (r: string)
    ensures videoDir == [] ==> r == userPath
    ensures videoDir != [] ==> videoDir <= r
    ensures videoDir != [] ==> r == JoinPath(videoDir, TrimLeftChar(userPath, '/'))
  {
    if videoDir != [] then JoinPath(videoDir, TrimLeftChar(userPath, '/')) else userPath
  }

  /** Under a video directory an absolute and a relative path name the same file. */
  lemma ResolveIgnoresLeadingSlash(videoDir: string, userPath: string)
    requires videoDir != []
    ensures ResolveVideoPath(videoDir, "/" + userPath) == ResolveVideoPath(videoDir, userPath)
  {
    assert ("/" + userPath)[1..] == userPath;
  }

  /** An absolute path under a video directory without a trailing '/' is that directory, '/', the path. */
  lemma ResolveUnder(videoDir: string, rel: string)
    requires videoDir != [] && videoDir[|videoDir| - 1] != '/'
    requires rel != [] && rel[0] != '/'
    ensures ResolveVideoPath(videoDir, "/" + rel) == videoDir + "/" + rel
  {
    ResolveIgnoresLeadingSlash(videoDir, rel);
  }

  // ---------------------------------------------------------------- probe_subtitle_tracks

  /** What the environment answers for one probe: the file test, PATH, and ffprobe's run. */
  datatype ProbeEnv = ProbeEnv(fileExists: bool, onPath: set<string>, returnCode: int,
                               streams: Option<seq<Stream>>)

  /** The tracks, or the exception probe_subtitle_tracks raises. */
  datatype ProbeOutcome =
    | FileNotFound
    | UnsupportedExtension(suffix: string)
    | FfprobeNotFound
    | FfprobeFailed(returnCode: int)
    | Found(tracks: seq<SubtitleTrack>)

  /** probe_subtitle_tracks: the guards in their order, then the stream loop. */
  function ProbeSubtitleTracks(videoPath: string, env: ProbeEnv): (r: ProbeOutcome)
    ensures r == FileNotFound <==> !env.fileExists
    ensures r.UnsupportedExtension? <==> env.fileExists && !SupportedVideo(videoPath)
    ensures r.UnsupportedExtension? ==> r.suffix == Suffix(videoPath)
    ensures r == FfprobeNotFound <==>
      env.fileExists && SupportedVideo(videoPath) && !CheckFfmpegAvailable(env.onPath)
    ensures r.FfprobeFailed? <==>
      env.fileExists && SupportedVideo(videoPath) && CheckFfmpegAvailable(env.onPath) && env.returnCode != 0
    ensures r.Found? ==> r.tracks == Tracks(env.streams.GetOr([]))
  {
    if !env.fileExists then FileNotFound
    else if !SupportedVideo(videoPath) then UnsupportedExtension(Suffix(videoPath))
    else if !CheckFfmpegAvailable(env.onPath) then FfprobeNotFound
    else if env.returnCode != 0 then FfprobeFailed(env.returnCode)
    else Found(Tracks(env.streams.GetOr([])))
  }

  /** A successful probe reports every subtitle stream, numbered from 0, and nothing else. */
  lemma ProbeFindsSubtitles(videoPath: string, env: ProbeEnv)
    requires ProbeSubtitleTracks(videoPath, env).Found?
    ensures var tracks := ProbeSubtitleTracks(videoPath, env).tracks;
      var subs := SubtitleStreams(env.streams.GetOr([]));
      |tracks| == |subs| &&
      forall k :: 0 <= k < |tracks| ==> tracks[k].subIndex == k && tracks[k].index == subs[k].index.GetOr(0)
  {
    TracksNumberSubtitles(env.streams.GetOr([]));
  }

  /** The five streams of a typical probe: video, audio, then three subtitle streams. */
  function SampleStreams(): seq<Stream>
  {
    [Stream(Some(0), Some("h264"), Some("video"), None),
     Stream(Some(1), Some("aac"), Some("audio"), None),
     Stream(Some(2), Some("subrip"), Some("subtitle"), Some(StreamTags(Some("eng"), Some("English")))),
     Stream(Some(3), Some("hdmv_pgs_subtitle"), Some("subtitle"), Some(StreamTags(Some("rus"), Some("Russian PGS")))),
     Stream(Some(4), Some("ass"), Some("subtitle"), Some(StreamTags(Some("jpn"), None)))]
  }

  /** The sample yields three tracks: English text, Russian image, Japanese text. */
  lemma SampleTracks()
    ensures Tracks(SampleStreams()) ==
      [SubtitleTrack(2, 0, "subrip", "eng", "English", true, false),
       SubtitleTrack(3, 1, "hdmv_pgs_subtitle", "rus", "Russian PGS", false, true),
       SubtitleTrack(4, 2, "ass", "jpn", "", true, false)]
  {
    var s := SampleStreams();
    assert s[..2][..1][..0] == [];
    assert s[..2][..1] == s[..1];
    NoSubtitleNoTracks(s[..2]);
    assert s[..3][..2] == s[..2];
    var t0 := TrackOf(s[2], 0);
    assert Tracks(s[..3]) == [t0];
    assert s[..4][..3] == s[..3];
    var t1 := TrackOf(s[3], 1);
    assert Tracks(s[..4]) == [t0, t1];
    assert s[..|s| - 1] == s[..4];
    var t2 := TrackOf(s[4], 2);
    assert Tracks(s) == [t0, t1, t2];
  }

  /** A successful probe of the sample reports those three tracks. */
  lemma SampleProbe(dir: string, stem: string)
    requires stem != [] && '/' !in stem
    ensures ProbeSubtitleTracks(dir + "/" + stem + ".mkv", ProbeEnv(true, {"ffprobe", "ffmpeg"}, 0, Some(SampleStreams()))) ==
      Found([SubtitleTrack(2, 0, "subrip", "eng", "English", true, false),
             SubtitleTrack(3, 1, "hdmv_pgs_subtitle", "rus", "Russian PGS", false, true),
             SubtitleTrack(4, 2, "ass", "jpn", "", true, false)])
  {
    MkvAccepted(dir, stem);
    SampleTracks();
  }

  /** Each guard in turn, with every later guard failing too: the earliest one decides. */
  lemma GuardOrder(dir: string, stem: string, streams: Option<seq<Stream>>)
    requires stem != [] && '/' !in stem
    ensures ProbeSubtitleTracks(dir + "/" + stem + ".mkv", ProbeEnv(false, {}, 1, streams)) == FileNotFound
    ensures ProbeSubtitleTracks(dir + "/" + stem + ".txt", ProbeEnv(true, {}, 1, streams)) == UnsupportedExtension(".txt")
    ensures ProbeSubtitleTracks(dir + "/" + stem + ".mkv", ProbeEnv(true, {}, 1, streams)) == FfprobeNotFound
    ensures ProbeSubtitleTracks(dir + "/" + stem + ".mkv", ProbeEnv(true, {"ffprobe", "ffmpeg"}, 1, streams))
      == FfprobeFailed(1)
  {
    MkvAccepted(dir, stem);
    TxtRefused(dir, stem);
  }

  // ---------------------------------------------------------------- format_track_label

  const ImageNote: string := "(image-based, cannot extract)"

  /** The language (upper-cased) and the title, each when not empty. */
  function LabelHead(t: SubtitleTrack): seq<string>
  {
    (if t.language != [] then [Upper(t.language)] else [])
    + (if t.title != [] then [t.title] else [])
  }

  /** The parts of a label, in order: language, title, codec, image note. */
  function LabelParts(t: SubtitleTrack): (parts: seq<string>)
    ensures |parts| >= 1
  {
    LabelHead(t) + ["[" + t.codecName + "]"] + (if t.isImage then [ImageNote] else [])
  }

  /** format_track_label: the parts joined by " - " (the "Track N" fallback is dead code). */
  method FormatTrackLabel(t: SubtitleTrack) returns (caption: string)
    ensures caption == Join(LabelParts(t), " - ")
  {
    var parts: seq<string> := [];
    if t.language != [] {
      parts := parts + [Upper(t.language)];
    }
    if t.title != [] {
      parts := parts + [t.title];
    }
    assert parts == LabelHead(t);
    parts := parts + ["[" + t.codecName + "]"];
    if t.isImage {
      parts := parts + [ImageNote];
    }
    assert parts == LabelParts(t);
    if |parts| > 0 {
      caption := Join(parts, " - ");
    } else {
      assert false;
      caption := "Track " + NatToString(t.subIndex);
    }
  }

  /**
   * A label is the head joined by " - ", then "[codec]", then the image note
   * exactly for image tracks.
   */
  lemma LabelShape(t: SubtitleTrack)
    ensures Join(LabelParts(t), " - ") ==
      (if LabelHead(t) == [] then [] else Join(LabelHead(t), " - ") + " - ")
      + ("[" + t.codecName + "]")
      + (if t.isImage then " - " + ImageNote else [])
  {
    var head := LabelHead(t);
    var codec := "[" + t.codecName + "]";
    var front := Join(head + [codec], " - ");
    assert front == (if head == [] then [] else Join(head, " - ") + " - ") + codec by {
      if head != [] {
        JoinSnoc(head, codec, " - ");
      } else {
        assert head + [codec] == [codec];
      }
    }
    if t.isImage {
      JoinSnoc(head + [codec], ImageNote, " - ");
      assert LabelParts(t) == head + [codec] + [ImageNote];
    } else {
      assert LabelParts(t) == head + [codec];
    }
  }

  /** The label ends in ')' (the image note) exactly for image tracks, and in ']' (the codec) otherwise. */
  lemma LabelMarksImage(t: SubtitleTrack)
    ensures var s := Join(LabelParts(t), " - ");
      |s| >= 2 && (t.isImage <==> s[|s| - 1] == ')') && (!t.isImage <==> s[|s| - 1] == ']')
  {
    LabelShape(t);
    var s := Join(LabelParts(t), " - ");
    if t.isImage {
      assert s[|s| - 1] == ImageNote[|ImageNote| - 1] == ')';
    } else {
      assert s[|s| - 1] == ']';
    }
  }

  /** A label starts with the upper-cased language when there is one. */
  lemma LabelStart(t: SubtitleTrack)
    requires t.language != []
    ensures Upper(t.language) <= Join(LabelParts(t), " - ")
  {
    var parts := LabelParts(t);
    assert parts[0] == Upper(t.language);
  }

  /**
   * Every part shows in the label: the upper-cased language and the title when
   * present, the codec in brackets, and the warning for an image track.
   */
  lemma LabelMentions(t: SubtitleTrack)
    ensures t.language != [] ==> Contains(Join(LabelParts(t), " - "), Upper(t.language))
    ensures t.title != [] ==> Contains(Join(LabelParts(t), " - "), t.title)
    ensures Contains(Join(LabelParts(t), " - "), "[" + t.codecName + "]")
    ensures t.isImage ==> Contains(Join(LabelParts(t), " - "), ImageNote)
  {
    var parts := LabelParts(t);
    var head := LabelHead(t);
    forall k | 0 <= k < |parts|
      ensures Contains(Join(parts, " - "), parts[k])
    {
      var at := JoinContains(parts, " - ", k);
    }
    assert parts[|head|] == "[" + t.codecName + "]";
    if t.language != [] {
      assert parts[0] == Upper(t.language);
    }
    if t.title != [] {
      assert parts[|head| - 1] == t.title;
    }
    if t.isImage {
      assert parts[|head| + 1] == ImageNote;
    }
  }
}
