/**
 * Translator.translate, with the Ollama reply passed in as a value, and the
 * block mapping of translate_srt that sends each block's text through it.
 */
module Translation {
  import opened Wrappers
  import opened Strings
  import opened Tags
  import opened Srt

  /**
   * What the backend answered: the HTTP status, and the "response" field of the
   * JSON body, None when the body has no such field.
   */
  datatype Reply = Reply(status: int, response: Option<string>)

  /** The prompt posted to /api/generate for the protected text. */
  function Prompt(targetLang: string, protectedText: string): string
  {
    "Translate the following segment into " + targetLang + ", without additional explanation.\n\n"
    + protectedText
  }

  /** The prompt names the target language and ends with the protected text after a blank line. */
  lemma PromptCarries(targetLang: string, protectedText: string)
    ensures var r := Prompt(targetLang, protectedText);
      |protectedText| + 2 <= |r| && r[|r| - |protectedText| - 2..] == "\n\n" + protectedText
    ensures Contains(Prompt(targetLang, protectedText), targetLang)
  {
    var head := "Translate the following segment into ";
    var r := Prompt(targetLang, protectedText);
    assert r == head + targetLang + (", without additional explanation.\n\n" + protectedText);
    assert r[|head|..] == targetLang + (", without additional explanation.\n\n" + protectedText);
  }

  /** The prompt translate posts for text, or None when it returns before calling the backend. */
  function Request(targetLang: string, text: string): (r: Option<string>)
    ensures r == None <==> Strip(text) == []
  {
    if IsBlank(text) then None else Some(Prompt(targetLang, Protect(text).text))
  }

  /**
   * Translator.translate(text) given the reply to its request: whitespace-only
   * text comes back as it is, a status other than 200 gives the original text,
   * and otherwise the stripped "response" (empty when missing) has its
   * placeholders swapped back for the tags.
   */
  function Translate(text: string, reply: Reply): string
  {
    if Strip(text) == [] then text
    else if reply.status != 200 then text
    else Restored(Strip(reply.response.GetOr("")), Protect(text).tags)
  }

  /** Whitespace-only text is sent nowhere and comes back unchanged, whatever the reply. */
  lemma BlankNotSent(targetLang: string, text: string, reply: Reply)
    requires IsBlank(text)
    ensures Request(targetLang, text) == None
    ensures Translate(text, reply) == text
  {
  }

  /** A failed request leaves the text as it was. */
  lemma FailureKeepsText(text: string, reply: Reply)
    requires reply.status != 200
    ensures Translate(text, reply) == text
  {
  }

  /** A successful request returns the stripped answer with the tags of the original put back. */
  lemma SuccessRestores(targetLang: string, text: string, reply: Reply)
    requires reply.status == 200 && Request(targetLang, text).Some?
    ensures Translate(text, reply) == Restored(Strip(reply.response.GetOr("")), Protect(text).tags)
  {
  }

  /** A 200 reply without a "response" field translates any non-blank text to "". */
  lemma MissingResponseEmpty(text: string)
    requires !IsBlank(text)
    ensures Translate(text, Reply(200, None)) == ""
  {
    RestoreEmpty(Protect(text).tags, |Protect(text).tags|);
  }

  /**
   * A backend that echoes the protected text returns the original, as long as
   * the text holds no ⟨ and has no whitespace at either end (strip would remove it).
   */
  lemma EchoRestores(text: string)
    requires text != [] && Open !in text
    requires !IsSpace(text[0]) && !IsSpace(text[|text| - 1])
    ensures Translate(text, Reply(200, Some(Protect(text).text))) == text
  {
    var p := Protect(text).text;
    ProtectedFirst(text, 0, 0);
    ProtectedLast(text, 0, 0);
    assert !IsBlank(text) by {
      assert !IsSpace(text[0]);
    }
    StripUnchanged(p);
    RestoreProtect(text);
  }

  // ---------------------------------------------------------------- translate_srt

  /** The translated block: same index and timecode, the translation split on line feeds. */
  function TranslateBlock(b: SrtBlock, reply: Reply): (t: SrtBlock)
    ensures t.index == b.index && t.timecode == b.timecode
  {
    SrtBlock(b.index, b.timecode, Split(Translate(Text(b), reply), '\n'))
  }

  /** A translated block has at least one line, and none holds a line feed. */
  lemma TranslatedLines(b: SrtBlock, reply: Reply)
    ensures var t := TranslateBlock(b, reply);
      |t.lines| >= 1 && forall k :: 0 <= k < |t.lines| ==> '\n' !in t.lines[k]
  {
  }

  /** [f(xs[0], ys[0]), f(xs[1], ys[1]), ...], built from the back. */
  function Map2<A, B, C>(f: (A, B) -> C, xs: seq<A>, ys: seq<B>): seq<C>
    requires |xs| == |ys|
  {
    if xs == [] then []
    else
      var n := |xs| - 1;
      Map2(f, xs[..n], ys[..n]) + [f(xs[n], ys[n])]
  }

  lemma {:induction false} Map2At<A, B, C>(f: (A, B) -> C, xs: seq<A>, ys: seq<B>)
    requires |xs| == |ys|
    ensures |Map2(f, xs, ys)| == |xs|
    ensures forall i :: 0 <= i < |xs| ==> Map2(f, xs, ys)[i] == f(xs[i], ys[i])
  {
    if xs != [] {
      var n := |xs| - 1;
      Map2At(f, xs[..n], ys[..n]);
      assert forall i :: 0 <= i < n ==> xs[..n][i] == xs[i] && ys[..n][i] == ys[i];
    }
  }

  /** The blocks translate_srt writes: block i translated with replies[i]. */
  function TranslateAll(blocks: seq<SrtBlock>, replies: seq<Reply>): seq<SrtBlock>
    requires |replies| == |blocks|
  {
    Map2(TranslateBlock, blocks, replies)
  }

  /** translate_srt keeps the number of blocks and each block's index and timecode. */
  lemma TranslateAllKeeps(blocks: seq<SrtBlock>, replies: seq<Reply>)
    requires |replies| == |blocks|
    ensures |TranslateAll(blocks, replies)| == |blocks|
    ensures forall i :: 0 <= i < |blocks| ==>
      TranslateAll(blocks, replies)[i] == TranslateBlock(blocks[i], replies[i])
      && TranslateAll(blocks, replies)[i].index == blocks[i].index
      && TranslateAll(blocks, replies)[i].timecode == blocks[i].timecode
  {
    Map2At(TranslateBlock, blocks, replies);
  }

  /**
   * The loop of translate_srt: one translate call per block, in order, the i-th
   * call answered by replies[i] (unused when the block's text is blank).
   */
  method TranslateSrt(blocks: seq<SrtBlock>, replies: seq<Reply>) returns (translated: seq<SrtBlock>)
    requires |replies| == |blocks|
    ensures translated == TranslateAll(blocks, replies)
  {
    translated := [];
    for i := 0 to |blocks|
      invariant translated == Map2(TranslateBlock, blocks[..i], replies[..i])
    {
      var translatedText := Translate(Text(blocks[i]), replies[i]);
      var block := SrtBlock(blocks[i].index, blocks[i].timecode, Split(translatedText, '\n'));
      assert blocks[..i + 1][..i] == blocks[..i] && replies[..i + 1][..i] == replies[..i];
      translated := translated + [block];
    }
    assert blocks[..|blocks|] == blocks && replies[..|replies|] == replies;
  }

  /** A parsed block with text whose request fails is written back exactly as it was read. */
  lemma FailedBlockUnchanged(b: SrtBlock, reply: Reply)
    requires WellFormed(b) && |b.lines| >= 1 && reply.status != 200
    ensures TranslateBlock(b, reply) == b
  {
    TextSplit(b);
  }

  /** A block without text lines comes back with one empty line: "".split("\n") is [""]. */
  lemma EmptyBlockGainsLine(b: SrtBlock, reply: Reply)
    requires b.lines == []
    ensures TranslateBlock(b, reply).lines == [""]
  {
  }
}
