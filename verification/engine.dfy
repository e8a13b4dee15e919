/** `RAGEngine` (rag_engine.py): files are split into chunks, the chunks are indexed, and a
    question is answered from the chunks the index retrieves for it.

    The collaborators the engine only calls are parameters: the file readers (`load_pdf`,
    `load_txt`) are a `Loader` that gives the file's text or nothing when reading raises; the
    sentence-transformer embedder together with the FAISS search is a `Search` that gives the
    chunk positions found for a query; the OpenAI client is a `Generator` whose call completes
    with a text or fails. */
module Engine {
  import opened Wrappers
  import opened Text
  import opened Paths
  import opened Chunking

  const ChunkSize := 700
  const ChunkOverlap := 150
  const TopK := 4

  /** A piece of an indexed file. The uuid4 string of the original is modelled by a number the
      engine has not issued before. */
  datatype DocumentChunk = DocumentChunk(id: nat, source: string, content: string)

  /** The FAISS flat index as the engine sees it: one stored vector per embedded text, in order. */
  datatype FlatIndex = FlatIndex(embedded: seq<string>)

  /** How a chat-completion call ends: with the message text, or with the exception's text. */
  datatype Reply = Completed(text: string) | Failed(reason: string)

  /** The two `ValueError`s the engine raises: `NoChunks` is "No chunks created from the provided
      documents." and `IndexNotBuilt` is "Index is not built yet." */
  datatype Error = NoChunks | IndexNotBuilt

  type Loader = (FileKind, string) -> Option<string>
  type Search = (FlatIndex, string, nat) -> seq<int>
  type Generator = string -> Reply

  // ---------- build_index: which chunks a list of files gives ----------

  /** The text `build_index` reads from `path`: nothing for an extension other than `.pdf` or
      `.txt` (after lower-casing), nothing when reading fails. */
  function Loaded(path: string, load: Loader): Option<string> {
    match KindByExtension(path)
    case None => None
    case Some(kind) => load(kind, path)
  }

  /** The file contributes at least one chunk. */
  predicate Yields(path: string, load: Loader) {
    Loaded(path, load).Some? && SplitChunks(Loaded(path, load).value, ChunkSize, ChunkOverlap) != []
  }

  /** The pieces of one file, numbered from `firstId`, all with the same `source`. */
  function Label(source: string, pieces: seq<string>, firstId: nat): (cs: seq<DocumentChunk>)
    ensures |cs| == |pieces|
  {
    if pieces == [] then []
    else Label(source, pieces[..|pieces| - 1], firstId)
         + [DocumentChunk(firstId + |pieces| - 1, source, pieces[|pieces| - 1])]
  }

  function FileChunks(path: string, load: Loader, firstId: nat): seq<DocumentChunk> {
    match Loaded(path, load)
    case None => []
    case Some(text) => Label(Basename(path), SplitChunks(text, ChunkSize, ChunkOverlap), firstId)
  }

  /** The chunks of one file, numbered from the given id, as a function of the path. */
  function FileChunksOf(load: Loader): (string, nat) -> seq<DocumentChunk> {
    (p: string, id: nat) => FileChunks(p, load, id)
  }

  /** The chunk list `build_index` assembles from `paths`, file after file, where `file(p, id)`
      gives the chunks of `p` numbered from `id`; `build_index` uses `FileChunksOf(load)` and
      issues ids from its counter on. */
  function Gather(paths: seq<string>, file: (string, nat) -> seq<DocumentChunk>, firstId: nat): seq<DocumentChunk> {
    if paths == [] then []
    else
      var before := Gather(paths[..|paths| - 1], file, firstId);
      before + file(paths[|paths| - 1], firstId + |before|)
  }

  function Contents(chunks: seq<DocumentChunk>): (texts: seq<string>)
    ensures |texts| == |chunks|
  {
    seq(|chunks|, j requires 0 <= j < |chunks| => chunks[j].content)
  }

  lemma {:induction false} LabelAt(source: string, pieces: seq<string>, firstId: nat, q: nat)
    requires q < |pieces|
    ensures Label(source, pieces, firstId)[q] == DocumentChunk(firstId + q, source, pieces[q])
    decreases |pieces|
  {
    if q < |pieces| - 1 {
      LabelAt(source, pieces[..|pieces| - 1], firstId, q);
    }
  }

  /** A readable `.pdf` or `.txt` file gives its split text, labelled with its basename. */
  lemma FileLoaded(path: string, load: Loader, id: nat, kind: FileKind, text: string)
    requires KindByExtension(path) == Some(kind) && load(kind, path) == Some(text)
    ensures FileChunksOf(load)(path, id) == Label(Basename(path), SplitChunks(text, ChunkSize, ChunkOverlap), id)
  {
  }

  /** A file with another extension, or one that cannot be read, gives nothing. */
  lemma FileSkipped(path: string, load: Loader, id: nat)
    requires KindByExtension(path).None? || load(KindByExtension(path).value, path).None?
    ensures FileChunksOf(load)(path, id) == []
  {
  }

  lemma FileYields(path: string, load: Loader, id: nat)
    ensures FileChunksOf(load)(path, id) != [] <==> Yields(path, load)
  {
  }

  lemma GatherStep(paths: seq<string>, file: (string, nat) -> seq<DocumentChunk>, firstId: nat, i: nat)
    requires i < |paths|
    ensures Gather(paths[..i + 1], file, firstId)
            == Gather(paths[..i], file, firstId) + file(paths[i], firstId + |Gather(paths[..i], file, firstId)|)
  {
    TakeSnoc(paths, i);
  }

  /** Files are processed in order: the chunks of `a + b` are those of `a` followed by those of
      `b`, whose ids continue where `a`'s stopped. */
  lemma {:induction false} GatherAppend(a: seq<string>, b: seq<string>, file: (string, nat) -> seq<DocumentChunk>, firstId: nat)
    ensures Gather(a + b, file, firstId)
            == Gather(a, file, firstId) + Gather(b, file, firstId + |Gather(a, file, firstId)|)
    decreases |b|
  {
    var ga := Gather(a, file, firstId);
    var next := firstId + |ga|;
    if b == [] {
      assert a + b == a;
    } else {
      var b' := b[..|b| - 1];
      var x := b[|b| - 1];
      assert (a + b)[..|a + b| - 1] == a + b';
      assert (a + b)[|a + b| - 1] == x;
      GatherAppend(a, b', file, firstId);
      var gb' := Gather(b', file, next);
      AppendAssoc(ga, gb', file(x, next + |gb'|));
    }
  }

  /** Nothing is gathered exactly when every file, numbered from the first id, gives nothing. */
  lemma {:induction false} GatherEmptyIff(paths: seq<string>, file: (string, nat) -> seq<DocumentChunk>, firstId: nat)
    ensures Gather(paths, file, firstId) == [] <==> forall i :: 0 <= i < |paths| ==> file(paths[i], firstId) == []
    decreases |paths|
  {
    if paths != [] {
      var init := paths[..|paths| - 1];
      GatherEmptyIff(init, file, firstId);
      if forall i :: 0 <= i < |paths| ==> file(paths[i], firstId) == [] {
        assert forall i :: 0 <= i < |init| ==> file(init[i], firstId) == [] by {
          forall i | 0 <= i < |init| ensures file(init[i], firstId) == [] {
            assert init[i] == paths[i];
          }
        }
      } else if Gather(init, file, firstId) == [] {
        forall i | 0 <= i < |init| ensures file(paths[i], firstId) == [] {
          assert init[i] == paths[i];
        }
      }
    }
  }

  /** Where each gathered chunk comes from: a file, and a position in that file's chunks. */
  lemma {:induction false} GatherOrigin(paths: seq<string>, file: (string, nat) -> seq<DocumentChunk>, firstId: nat, j: nat)
    returns (p: nat, start: nat)
    requires j < |Gather(paths, file, firstId)|
    ensures p < |paths| && start <= j < start + |file(paths[p], firstId + start)|
    ensures Gather(paths, file, firstId)[j] == file(paths[p], firstId + start)[j - start]
    decreases |paths|
  {
    var init := paths[..|paths| - 1];
    var before := Gather(init, file, firstId);
    if j < |before| {
      p, start := GatherOrigin(init, file, firstId, j);
      assert init[p] == paths[p];
    } else {
      p, start := |paths| - 1, |before|;
    }
  }

  /** No chunk results exactly when every file is skipped, unreadable or blank. */
  lemma NoChunksIff(paths: seq<string>, load: Loader, firstId: nat)
    ensures Gather(paths, FileChunksOf(load), firstId) == [] <==> forall i :: 0 <= i < |paths| ==> !Yields(paths[i], load)
  {
    GatherEmptyIff(paths, FileChunksOf(load), firstId);
    forall i | 0 <= i < |paths| ensures FileChunksOf(load)(paths[i], firstId) == [] <==> !Yields(paths[i], load) {
      FileYields(paths[i], load, firstId);
    }
  }

  /** The `q`-th chunk of a file is the `q`-th piece of its text, with the file's basename and
      the `q`-th id from `id` on. */
  lemma FileEntry(path: string, load: Loader, id: nat, q: nat)
    requires q < |FileChunksOf(load)(path, id)|
    ensures Yields(path, load)
    ensures q < |SplitChunks(Loaded(path, load).value, ChunkSize, ChunkOverlap)|
    ensures FileChunksOf(load)(path, id)[q]
            == DocumentChunk(id + q, Basename(path), SplitChunks(Loaded(path, load).value, ChunkSize, ChunkOverlap)[q])
  {
    LabelAt(Basename(path), SplitChunks(Loaded(path, load).value, ChunkSize, ChunkOverlap), id, q);
  }

  /** Where each chunk comes from: the `j`-th chunk carries id `firstId + j`, the basename of a
      file that yields chunks, and one of the pieces the splitter cut from that file's text. */
  lemma ChunkOrigin(paths: seq<string>, load: Loader, firstId: nat, j: nat) returns (p: nat, q: nat)
    requires j < |Gather(paths, FileChunksOf(load), firstId)|
    ensures p < |paths| && Yields(paths[p], load)
    ensures q < |SplitChunks(Loaded(paths[p], load).value, ChunkSize, ChunkOverlap)|
    ensures Gather(paths, FileChunksOf(load), firstId)[j]
            == DocumentChunk(firstId + j, Basename(paths[p]),
                             SplitChunks(Loaded(paths[p], load).value, ChunkSize, ChunkOverlap)[q])
  {
    var start;
    p, start := GatherOrigin(paths, FileChunksOf(load), firstId, j);
    q := j - start;
    FileEntry(paths[p], load, firstId + start, q);
  }

  /** Ids count up from the first one, and every chunk is non-empty stripped text. */
  lemma GatherChunksValid(paths: seq<string>, load: Loader, firstId: nat)
    ensures var cs := Gather(paths, FileChunksOf(load), firstId);
            forall j :: 0 <= j < |cs| ==> cs[j].id == firstId + j && cs[j].content != [] && Strip(cs[j].content) == cs[j].content
  {
    var cs := Gather(paths, FileChunksOf(load), firstId);
    forall j | 0 <= j < |cs|
      ensures cs[j].id == firstId + j && cs[j].content != [] && Strip(cs[j].content) == cs[j].content
    {
      var p, q := ChunkOrigin(paths, load, firstId, j);
      ChunksClean(Loaded(paths[p], load).value, ChunkSize, ChunkOverlap);
    }
  }

  // ---------- retrieve: positions back to chunks ----------

  /** `[chunks[idx] for idx in ids if 0 <= idx < len(chunks)]` */
  function Resolve(ids: seq<int>, chunks: seq<DocumentChunk>): (found: seq<DocumentChunk>)
    ensures |found| <= |ids|
  {
    if ids == [] then []
    else
      var idx := ids[|ids| - 1];
      Resolve(ids[..|ids| - 1], chunks) + (if 0 <= idx < |chunks| then [chunks[idx]] else [])
  }

  /** Search order is kept, and a position outside the chunk list contributes nothing. */
  lemma {:induction false} ResolveAppend(a: seq<int>, b: seq<int>, chunks: seq<DocumentChunk>)
    ensures Resolve(a + b, chunks) == Resolve(a, chunks) + Resolve(b, chunks)
    decreases |b|
  {
    if b == [] {
      assert a + b == a;
    } else {
      var b' := b[..|b| - 1];
      var idx := b[|b| - 1];
      assert (a + b)[..|a + b| - 1] == a + b';
      assert (a + b)[|a + b| - 1] == idx;
      ResolveAppend(a, b', chunks);
      AppendAssoc(Resolve(a, chunks), Resolve(b', chunks), if 0 <= idx < |chunks| then [chunks[idx]] else []);
    }
  }

  /** Every retrieved chunk is the chunk at a position the search returned. */
  lemma {:induction false} ResolveFrom(ids: seq<int>, chunks: seq<DocumentChunk>, j: nat) returns (m: nat)
    requires j < |Resolve(ids, chunks)|
    ensures m < |ids| && 0 <= ids[m] < |chunks| && Resolve(ids, chunks)[j] == chunks[ids[m]]
    decreases |ids|
  {
    var init := ids[..|ids| - 1];
    if j < |Resolve(init, chunks)| {
      m := ResolveFrom(init, chunks, j);
    } else {
      m := |ids| - 1;
    }
  }

  /** When every position is in range, each one gives its chunk, in order. */
  lemma {:induction false} ResolveInRange(ids: seq<int>, chunks: seq<DocumentChunk>)
    requires forall m :: 0 <= m < |ids| ==> 0 <= ids[m] < |chunks|
    ensures |Resolve(ids, chunks)| == |ids|
    ensures forall m :: 0 <= m < |ids| ==> Resolve(ids, chunks)[m] == chunks[ids[m]]
    decreases |ids|
  {
    if ids != [] {
      ResolveInRange(ids[..|ids| - 1], chunks);
    }
  }

  /** What a flat FAISS index answers for `k` neighbours over `n` vectors: `k` positions, the
      first `min(k, n)` of them valid and the rest `-1`. */
  predicate FlatAnswer(ids: seq<int>, k: nat, n: nat) {
    && |ids| == k
    && (forall m :: 0 <= m < Min(k, n) ==> 0 <= ids[m] < n)
    && (forall m :: Min(k, n) <= m < k ==> ids[m] == -1)
  }

  lemma {:induction false} ResolveDropsTail(ids: seq<int>, chunks: seq<DocumentChunk>, valid: nat)
    requires valid <= |ids|
    requires forall m :: 0 <= m < valid ==> 0 <= ids[m] < |chunks|
    requires forall m :: valid <= m < |ids| ==> ids[m] == -1
    ensures |Resolve(ids, chunks)| == valid
    decreases |ids|
  {
    if |ids| == valid {
      ResolveInRange(ids, chunks);
    } else {
      ResolveDropsTail(ids[..|ids| - 1], chunks, valid);
    }
  }

  /** With a flat index holding one vector per chunk, `retrieve` returns `min(k, len(chunks))`
      chunks. */
  lemma ResolveFlatCount(ids: seq<int>, k: nat, chunks: seq<DocumentChunk>)
    requires FlatAnswer(ids, k, |chunks|)
    ensures |Resolve(ids, chunks)| == Min(k, |chunks|)
  {
    ResolveDropsTail(ids, chunks, Min(k, |chunks|));
  }

  // ---------- _build_prompt and the answer texts ----------

  /** The template's first words, kept as a constant of their own so that its first character
      is at hand. */
  const PromptOpening: string := "You are an AI assistant"

  const PromptHead: string :=
    PromptOpening + " that answers questions based strictly on the provided context.\nIf the answer is not clearly contained in the context, say you are not sure.\n\nContext:\n"

  const PromptTail: string :=
    "\n\nAnswer in a clear, concise paragraph and, if helpful, bullet points.\nMention which source snippets you used like [1], [2] etc."

  const NotIndexedText: string := "Please upload and index documents first."

  const FallbackOpening: string := "LLM API key is not configured"

  const FallbackHead: string :=
    FallbackOpening + ", so here are the most relevant passages from your documents:\n\n"

  const LlmErrorHead: string := "Error contacting LLM: "

  /** One context entry, `[n] From <source>:\n<content>`. */
  function Citation(n: nat, c: DocumentChunk): string {
    "[" + Decimal(n) + "] From " + c.source + ":\n" + c.content
  }

  /** The context entries, numbered from 1 in retrieval order. */
  function Citations(retrieved: seq<DocumentChunk>): (entries: seq<string>)
    ensures |entries| == |retrieved|
  {
    seq(|retrieved|, i requires 0 <= i < |retrieved| => Citation(i + 1, retrieved[i]))
  }

  function Context(retrieved: seq<DocumentChunk>): string {
    Join("\n\n", Citations(retrieved))
  }

  /** The lines of the prompt template between its opening and closing line breaks, filled in. */
  function Filled(query: string, retrieved: seq<DocumentChunk>): string {
    PromptHead + Context(retrieved) + "\n\nQuestion: " + query + PromptTail
  }

  /** `_build_prompt`: the template, filled in and stripped. */
  function BuildPrompt(query: string, retrieved: seq<DocumentChunk>): string {
    Strip("\n" + Filled(query, retrieved) + "\n")
  }

  function Snippets(retrieved: seq<DocumentChunk>): (entries: seq<string>)
    ensures |entries| == |retrieved|
  {
    seq(|retrieved|, i requires 0 <= i < |retrieved| => "From " + retrieved[i].source + ":\n" + retrieved[i].content)
  }

  /** The answer given when no LLM client is configured. */
  function FallbackAnswer(retrieved: seq<DocumentChunk>): string {
    FallbackHead + Join("\n\n---\n\n", Snippets(retrieved))
  }

  /** The answer text for retrieved chunks, with or without an LLM client. */
  function Respond(query: string, retrieved: seq<DocumentChunk>, llm: Option<Generator>): string {
    match llm
    case None => FallbackAnswer(retrieved)
    case Some(generate) =>
      match generate(BuildPrompt(query, retrieved))
      case Completed(text) => text
      case Failed(reason) => LlmErrorHead + reason
  }

  /** Stripping removes only the template's first and last line breaks: the prompt is the
      instructions, the numbered context, the question and the closing instructions, verbatim. */
  lemma PromptShape(query: string, retrieved: seq<DocumentChunk>)
    ensures BuildPrompt(query, retrieved)
            == PromptHead + Context(retrieved) + "\n\nQuestion: " + query + PromptTail
  {
    var body := Filled(query, retrieved);
    assert PromptOpening[0] == 'Y';
    assert body[0] == PromptHead[0] == 'Y';
    assert body[|body| - 1] == PromptTail[|PromptTail| - 1] == '.';
    assert AllSpace("\n");
    StripFramed("\n", body, "\n");
  }

  /** Every retrieved chunk is cited in the prompt under its 1-based rank. */
  lemma PromptCites(query: string, retrieved: seq<DocumentChunk>, i: nat)
    requires i < |retrieved|
    ensures IsSubstring(Citation(i + 1, retrieved[i]), BuildPrompt(query, retrieved))
  {
    PromptShape(query, retrieved);
    JoinContains("\n\n", Citations(retrieved), i);
    SubstringInside(Citation(i + 1, retrieved[i]), PromptHead, Context(retrieved),
                    "\n\nQuestion: " + query + PromptTail);
    AppendAssoc(PromptHead + Context(retrieved), "\n\nQuestion: " + query, PromptTail);
    AppendAssoc(PromptHead + Context(retrieved), "\n\nQuestion: ", query);
  }

  /** The fallback answer quotes every retrieved chunk with its source. */
  lemma FallbackQuotes(retrieved: seq<DocumentChunk>, i: nat)
    requires i < |retrieved|
    ensures IsSubstring("From " + retrieved[i].source + ":\n" + retrieved[i].content, FallbackAnswer(retrieved))
  {
    JoinContains("\n\n---\n\n", Snippets(retrieved), i);
    SubstringInside(Snippets(retrieved)[i], FallbackHead, Join("\n\n---\n\n", Snippets(retrieved)), "");
    assert FallbackHead + Join("\n\n---\n\n", Snippets(retrieved)) + "" == FallbackAnswer(retrieved);
  }

  /** A failed LLM call is reported as an error, never answered with the fallback snippets. */
  lemma LlmFailureIsReported(query: string, retrieved: seq<DocumentChunk>, generate: Generator)
    requires generate(BuildPrompt(query, retrieved)).Failed?
    ensures IsPrefix(LlmErrorHead, Respond(query, retrieved, Some(generate)))
    ensures Respond(query, retrieved, Some(generate)) != FallbackAnswer(retrieved)
  {
    var r := Respond(query, retrieved, Some(generate));
    assert LlmErrorHead[0] == 'E' && r[0] == 'E';
    assert FallbackOpening[0] == 'L';
    assert FallbackHead[0] == 'L' && FallbackAnswer(retrieved)[0] == 'L';
  }

  // ---------- the engine ----------

  class RAGEngine {
    var chunks: seq<DocumentChunk>
    var index: Option<FlatIndex>
    var llm: Option<Generator>
    /** How many chunk ids have been issued so far; every id below it is used up. */
    var idsIssued: nat

    /** Chunk ids are fresh and distinct, every chunk is non-empty stripped text, and while
        there are chunks the index holds exactly one vector per chunk, in chunk order. */
    ghost predicate Valid()
      reads this
    {
      && (forall j :: 0 <= j < |chunks| ==> chunks[j].id < idsIssued)
      && (forall j, j' :: 0 <= j < j' < |chunks| ==> chunks[j].id < chunks[j'].id)
      && (forall j :: 0 <= j < |chunks| ==> chunks[j].content != [] && Strip(chunks[j].content) == chunks[j].content)
      && (chunks != [] ==> index == Some(FlatIndex(Contents(chunks))))
    }

    /** An engine with no chunks and no index; it has an LLM client exactly when the API key
        is set and not empty. */
    constructor(apiKey: Option<string>, client: Generator)
      ensures Valid()
      ensures chunks == [] && index == None && idsIssued == 0
      ensures llm.Some? <==> apiKey.Some? && apiKey.value != []
      ensures llm.Some? ==> llm.value == client
    {
      chunks := [];
      index := None;
      idsIssued := 0;
      if apiKey.Some? && apiKey.value != [] {
        llm := Some(client);
      } else {
        llm := None;
      }
    }

    /** `build_index`: the previous chunks are discarded and the chunks of `paths` assembled.
        With none, `NoChunks` is raised and the old index stays; otherwise the index is rebuilt
        over the new chunks and the number of paths (skipped ones included) and of chunks is
        returned. */
    method BuildIndex(paths: seq<string>, load: Loader) returns (r: Result<(nat, nat), Error>)
      requires Valid()
      modifies this
      ensures Valid()
      ensures chunks == Gather(paths, FileChunksOf(load), old(idsIssued))
      ensures idsIssued == old(idsIssued) + |chunks| && llm == old(llm)
      ensures chunks == [] ==> r == Err(NoChunks) && index == old(index)
      ensures chunks != [] ==> r == Ok((|paths|, |chunks|)) && index == Some(FlatIndex(Contents(chunks)))
    {
      ghost var id0 := idsIssued;
      chunks := [];
      var i := 0;
      while i < |paths|
        invariant 0 <= i <= |paths|
        invariant chunks == Gather(paths[..i], FileChunksOf(load), id0)
        invariant idsIssued == id0 + |chunks|
        invariant index == old(index) && llm == old(llm)
      {
        GatherStep(paths, FileChunksOf(load), id0, i);
        AddFile(paths[i], load);
        i := i + 1;
      }
      assert paths[..i] == paths;
      GatherChunksValid(paths, load, id0);
      if chunks == [] {
        return Err(NoChunks);
      }
      index := Some(FlatIndex(Contents(chunks)));
      r := Ok((|paths|, |chunks|));
    }

    /** One round of `build_index`'s loop over the paths: the chunks of `path` are appended,
        with ids issued from the counter on. */
    method AddFile(path: string, load: Loader)
      modifies this
      ensures chunks == old(chunks) + FileChunksOf(load)(path, old(idsIssued))
      ensures idsIssued == old(idsIssued) + |FileChunksOf(load)(path, old(idsIssued))|
      ensures index == old(index) && llm == old(llm)
    {
      ghost var before := chunks;
      ghost var id := idsIssued;
      var kind := KindByExtension(path);
      if kind.None? {
        FileSkipped(path, load, id);
        return;
      }
      var loaded := load(kind.value, path);
      if loaded.None? {
        FileSkipped(path, load, id);
        return;
      }
      var pieces := SplitText(loaded.value, ChunkSize, ChunkOverlap);
      FileLoaded(path, load, id, kind.value, loaded.value);
      AppendLabelled(Basename(path), pieces);
    }

    /** The inner loop of `build_index`: one chunk per piece, all from `source`, each with the
        next unissued id. */
    method AppendLabelled(source: string, pieces: seq<string>)
      modifies this
      ensures chunks == old(chunks) + Label(source, pieces, old(idsIssued))
      ensures idsIssued == old(idsIssued) + |pieces|
      ensures index == old(index) && llm == old(llm)
    {
      ghost var before := chunks;
      ghost var id := idsIssued;
      var j := 0;
      while j < |pieces|
        invariant 0 <= j <= |pieces|
        invariant chunks == before + Label(source, pieces[..j], id)
        invariant idsIssued == id + j
        invariant index == old(index) && llm == old(llm)
      {
        TakeSnoc(pieces, j);
        AppendAssoc(before, Label(source, pieces[..j], id), [DocumentChunk(idsIssued, source, pieces[j])]);
        chunks := chunks + [DocumentChunk(idsIssued, source, pieces[j])];
        idsIssued := idsIssued + 1;
        j := j + 1;
      }
      assert pieces[..j] == pieces;
    }

    /** `retrieve`: `IndexNotBuilt` is raised without an index or without chunks; otherwise the
        chunks at the positions the search returns, keeping their order and dropping positions
        outside the chunk list. */
    method Retrieve(query: string, k: nat, search: Search) returns (r: Result<seq<DocumentChunk>, Error>)
      requires Valid()
      ensures index.None? || chunks == [] ==> r == Err(IndexNotBuilt)
      ensures index.Some? && chunks != [] ==> r == Ok(Resolve(search(index.value, query, k), chunks))
    {
      if index.None? || chunks == [] {
        return Err(IndexNotBuilt);
      }
      var ids := search(index.value, query, k);
      var results := [];
      var i := 0;
      while i < |ids|
        invariant 0 <= i <= |ids|
        invariant results == Resolve(ids[..i], chunks)
      {
        TakeSnoc(ids, i);
        if 0 <= ids[i] < |chunks| {
          results := results + [chunks[ids[i]]];
        }
        i := i + 1;
      }
      assert ids[..i] == ids;
      r := Ok(results);
    }

    /** `answer`: without an index, the fixed request to index documents and no chunks; once
        there is one, the chunks `retrieve` finds for the query (or its error) together with the
        fallback snippets, the LLM's text or the LLM's error. */
    method Answer(query: string, search: Search) returns (r: Result<(string, seq<DocumentChunk>), Error>)
      requires Valid()
      ensures index.None? ==> r == Ok((NotIndexedText, []))
      ensures index.Some? && chunks == [] ==> r == Err(IndexNotBuilt)
      ensures index.Some? && chunks != [] ==>
                var retrieved := Resolve(search(index.value, query, TopK), chunks);
                r == Ok((Respond(query, retrieved, llm), retrieved))
    {
      if index.None? {
        return Ok((NotIndexedText, []));
      }
      var found := Retrieve(query, TopK, search);
      if found.Err? {
        return Err(found.error);
      }
      var retrieved := found.value;
      var text;
      if llm.None? {
        text := FallbackHead + Join("\n\n---\n\n", Snippets(retrieved));
      } else {
        var prompt := BuildPrompt(query, retrieved);
        var reply := llm.value(prompt);
        match reply {
          case Completed(t) => text := t;
          case Failed(reason) => text := LlmErrorHead + reason;
        }
      }
      r := Ok((text, retrieved));
    }
  }

  /** A rebuild from files that give no chunk empties the chunk list but keeps the previous
      index, so the next question gets past the index check and fails in `retrieve`. */
  method RebuildWithoutChunks(engine: RAGEngine, paths: seq<string>, load: Loader, query: string, search: Search)
    returns (built: Result<(nat, nat), Error>, answered: Result<(string, seq<DocumentChunk>), Error>)
    requires engine.Valid() && engine.index.Some?
    requires forall i :: 0 <= i < |paths| ==> !Yields(paths[i], load)
    modifies engine
    ensures built == Err(NoChunks) && engine.chunks == [] && engine.index == old(engine.index)
    ensures answered == Err(IndexNotBuilt)
  {
    NoChunksIff(paths, load, engine.idsIssued);
    built := engine.BuildIndex(paths, load);
    answered := engine.Answer(query, search);
  }
}
