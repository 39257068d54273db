/**
 * `generate_chat_responses`: join the streamed chunk contents, then apply the
 * meow substitution when meow mode is on.
 */
module ResponseTransformer {
  import opened Wrappers
  import opened MeowSubstitution

  /** A streamed chunk's `delta.content`, which may be missing. */
  type Chunk = Option<string>

  /** `content if content else ""`: a missing or empty content contributes nothing. */
  function ChunkText(content: Chunk): (t: string)
    ensures content == None ==> t == ""
    ensures content.Some? ==> t == content.value
  {
    if content.Some? && content.value != "" then content.value else ""
  }

  /** `"".join(...)` over the chunks, in arrival order. */
  function JoinChunks(chunks: seq<Chunk>): (r: string)
    ensures |r| == TotalLength(chunks)
  {
    if chunks == [] then "" else ChunkText(chunks[0]) + JoinChunks(chunks[1..])
  }

  /** Joining is a homomorphism: the text of a stream is the text of its parts, in order. */
  lemma {:induction false} JoinChunksAppend(a: seq<Chunk>, b: seq<Chunk>)
    ensures JoinChunks(a + b) == JoinChunks(a) + JoinChunks(b)
    decreases |a|
  {
    if a == [] {
      assert a + b == b;
    } else {
      assert (a + b)[0] == a[0] && (a + b)[1..] == a[1..] + b;
      JoinChunksAppend(a[1..], b);
    }
  }

  /** A chunk with content t contributes exactly t at its place in the stream. */
  lemma JoinChunksKeepsOrder(before: seq<Chunk>, t: string, after: seq<Chunk>)
    ensures JoinChunks(before + [Some(t)] + after) == JoinChunks(before) + t + JoinChunks(after)
  {
    JoinChunksAppend(before + [Some(t)], after);
    JoinChunksAppend(before, [Some(t)]);
    assert [Some(t)][1..] == [];
  }

  /** A chunk whose content is missing or empty can be dropped without changing the text. */
  lemma JoinChunksSkipsEmpty(before: seq<Chunk>, c: Chunk, after: seq<Chunk>)
    requires c == None || c == Some("")
    ensures JoinChunks(before + [c] + after) == JoinChunks(before + after)
  {
    JoinChunksAppend(before + [c], after);
    JoinChunksAppend(before, [c]);
    JoinChunksAppend(before, after);
    assert [c][1..] == [];
  }

  /** The length of the joined text is the sum of the contents' lengths. */
  function TotalLength(chunks: seq<Chunk>): nat {
    if chunks == [] then 0
    else (if chunks[0].Some? then |chunks[0].value| else 0) + TotalLength(chunks[1..])
  }

  /**
   * The text shown for one completion. In normal mode it is the joined stream;
   * in meow mode every maximal word run of the joined stream becomes the
   * placeholder, every other character is kept in order, and the result is a
   * fixed point of the substitution.
   */
  function GenerateChatResponse(chunks: seq<Chunk>, meowMode: bool): (r: string)
    ensures !meowMode ==> r == JoinChunks(chunks)
    ensures meowMode ==>
      && r == Flatten(Meowed(Tokenize(JoinChunks(chunks))))
      && NonWordChars(r) == NonWordChars(JoinChunks(chunks))
      && OnlyPlaceholders(Tokenize(r))
      && Meow(r) == r
  {
    var text := JoinChunks(chunks);
    if meowMode then
      MeowReplacesEveryRun(text, Tokenize(text));
      MeowOutputRuns(text);
      MeowIdempotent(text);
      Meow(text)
    else
      text
  }

  /** Chunks "Hi " and "there!" in meow mode give "meow meow!". */
  lemma GenerateExample()
    ensures GenerateChatResponse([Some("Hi "), Some("there!")], true) == "meow meow!"
  {
    var chunks: seq<Chunk> := [Some("Hi "), Some("there!")];
    JoinChunksKeepsOrder([Some("Hi ")], "there!", []);
    JoinChunksKeepsOrder([], "Hi ", []);
    assert JoinChunks(chunks) == "Hi there!";
    MeowExample();
  }
}
