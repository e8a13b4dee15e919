# RAG-Chat-Bot in Dafny

This project models the two question-answering engines of RAG-Chat-Bot and proves properties
of them.

`RAGEngine` (rag_engine.py) works in two stages:
- **Indexing.** It reads `.pdf` and `.txt` files, cuts their text into chunks with a
  character-window splitter, and indexes one vector per chunk.
- **Answering.** For a question, it retrieves the nearest chunks. It answers from them with an
  LLM prompt that cites them. Without an LLM client it quotes them instead.

`RAGBot` (rag_bot.py) is the keyword fallback. It keeps a list of documents and answers a
question with an excerpt of the first document that shares the most question words with it.

The code is split into modules as follows:
- `Wrappers`: `Option` and `Result`.
- `Text`: the Python string operations the engines rely on. These are `lower`, `strip`,
  `split`, `rfind`, `replace`, `in`, `join`, slicing and decimal formatting.
- `Paths`: `os.path.splitext`, `os.path.basename`, and the two ways the engines decide what
  kind of file a path names.
- `Chunking`: `_split_text`, specified by functions over the normalised text and implemented by
  the `SplitText` loop.
- `Engine`: `DocumentChunk`, and the `RAGEngine` class with `BuildIndex`, `Retrieve` and
  `Answer`. Also the specification functions `Gather` (the chunk list of a set of files),
  `Resolve` (positions back to chunks), `BuildPrompt` and `Respond`.
- `Bot`: the `RAGBot` class with `LoadDocuments`, `CreateVectorStore` and `Ask`, plus scoring
  and the first-maximum rule.

The collaborators the engines only call are function parameters:
- **File readers.** `Loader` returns a file's text, or `None` when reading raises. `DocLoader`
  returns a file's documents, or `None`.
- **Embedder and FAISS search.** `Search` returns the positions found for a query.
- **OpenAI client.** `Generator` returns `Completed(text)` or `Failed(reason)`.

The `DocumentChunk` dataclass (rag_engine.py:16-20) is the datatype `Engine.DocumentChunk`.
The engine's `ValueError`s are `Err` results. The uuid4 chunk id is a counter the engine has
not issued before.

Some behaviours the model proves:
- **Overlap has no effect.** The next window starts at `max(end - overlap, end)`. That is
  `end` for every non-negative overlap, so the windows tile the normalised text without
  overlapping.
- **Normalisation is a single pass.** Line 78 of rag_engine.py does `replace("\r", " ")`, then
  one pass of `replace("\n\n", "\n")` from left to right. Three newlines become two, so a
  blank line survives (`NormalizeKeepsBlankLine`).
- **Out-of-range search positions are dropped.** `retrieve` keeps only positions
  `0 <= idx < len(self.chunks)` (rag_engine.py:155), which is what `Resolve` models. For a flat
  index returning `-1` padding, `ResolveFlatCount` gives `min(k, len(chunks))` chunks.
- **The two dispatches differ.** The engine lower-cases the extension, so `notes.PDF` is
  indexed but `.pdf` (a hidden name with no extension) is skipped. The bot tests the path's
  ending case-sensitively, so it does the opposite.
- **A failed rebuild keeps the old index.** It empties the chunk list but leaves the previous
  FAISS index in place. The next `answer` gets past the index check and fails in `retrieve`
  with "Index is not built yet." (`RebuildWithoutChunks`).
- **A failed LLM call is reported.** It gives `Error contacting LLM: ...`, never the fallback
  snippets.
- **Ties go to the first document.** `ask` compares with a strict `>`, so the first document
  with the highest score wins. A positive score implies non-empty content, so the `if
  best_match:` test never turns a match into the no-match reply.

One place where the code does less than its names and comments suggest. The model follows the
code:
- **Window advance.** The parameter of `_split_text` is named `overlap` (rag_engine.py:76), and
  the docstring at line 77 calls the splitter recursive. Yet line 94 sets
  `start = max(end - overlap, end)`, which never moves back, and the splitter is one loop.
  Consecutive windows share no text for any non-negative overlap (`OverlapIgnored`).

## Model

| member | source | states |
|---|---|---|
| Text.Lower | rag_bot.py:42 | lower-casing keeps the length and lowers each character in place: `A`-`Z` move to `a`-`z`, every other character stays |
| Text.RFindFacts | rag_engine.py:88 | `rfind` gives -1 exactly when the character is absent; otherwise the position holds it and nothing after it does |
| Text.RFind | rag_engine.py:88 | `str.rfind` of one character: a position of the string, or -1; its meaning is stated by `RFindFacts` |
| Text.StripFacts | rag_engine.py:93 | a stripped string is no longer than the input, neither end is whitespace, and it is empty exactly when the input is all whitespace |
| Text.Strip | rag_engine.py:93 | `str.strip()`: the input without its leading and trailing whitespace, the whitespace being Python's `str.isspace` set; its meaning is stated by `StripFacts` and `StripFramed` |
| Text.StripIdempotent | rag_engine.py:93 | stripping twice is stripping once |
| Text.StripFramed | rag_engine.py:176 | stripping text framed by whitespace gives back the text when its own ends are not whitespace |
| Text.StripOfSlice | rag_engine.py:93 | the stripped slice of a text is a substring of that text |
| Text.WordsOfJoin | rag_bot.py:42 | `split()` of words joined by single spaces gives back those words |
| Text.Words | rag_bot.py:42 | `str.split()`: every word is non-empty and holds no whitespace; `WordsEmptyIff` and `WordsOfLeadingWord` determine the split of every string |
| Text.WordsEmptyIff | rag_bot.py:42 | `split()` gives no word exactly when the string is all whitespace |
| Text.WordsAfterBlank | rag_bot.py:42 | leading whitespace, of any length, is skipped |
| Text.WordsOfLeadingWord | rag_bot.py:42 | after any whitespace, a word followed by nothing or by whitespace is the first word, and the rest is split on its own |
| Text.Join | rag_engine.py:160-162 | `sep.join(xs)`: the entries with the separator between consecutive ones; `WordsOfJoin` and `JoinContains` state its properties |
| Text.JoinContains | rag_engine.py:160-162 | every joined entry occurs in the joined string |
| Text.ReplaceAbsent | rag_engine.py:78 | replacing an absent pattern changes nothing |
| Text.ReplaceChar | rag_engine.py:78 | replacing one character by another keeps the length and maps every position: the old character becomes the new one, every other stays |
| Text.Replace | rag_engine.py:78 | `str.replace` of a non-empty pattern: no longer than the input when the replacement is not longer than the pattern, every character from the input or the replacement, and a one-character pattern missing from the replacement is gone from the result |
| Text.Take | rag_bot.py:54 | `s[:n]` has `min(n, len(s))` characters and is a prefix of `s` |
| Text.IsSubstring | rag_bot.py:48 | Python's `word in content`: true only when the word fits in the content; `SubstringAt` and `SubstringOfSlice` make it exactly "the slice at some position is the word" |
| Text.SubstringAt | rag_bot.py:48 | a word that is found is the slice of the content at some position |
| Text.SubstringOfSlice | rag_bot.py:48 | the slice of the content at any position is found in it |
| Text.EndsWith | rag_bot.py:17-22 | `str.endswith`: the suffix is no longer than the string and equals its final characters |
| Text.Decimal | rag_engine.py:161 | `str(n)`: a non-empty run of decimal digits with no leading zero |
| Text.DecimalRoundTrip | rag_engine.py:161 | the decimal numeral of a citation number reads back as that number |
| Paths.ExtensionShape | rag_engine.py:104 | a non-empty extension is a final run of the path that starts with its only `.` and holds no `/` |
| Paths.Extension | rag_engine.py:104 | `os.path.splitext(path)[1]` for `/`-separated paths; `ExtensionShape`, `ExtensionEmptyIff` and `ExtensionOf` together determine it |
| Paths.ExtensionEmptyIff | rag_engine.py:104 | the extension is empty exactly when no `.` of the final component follows a character other than `.` |
| Paths.ExtensionOf | rag_engine.py:104 | a name whose stem holds a character other than `.` has, in any directory, the extension from its last `.` to its end |
| Paths.BasenameShape | rag_engine.py:124 | the basename ends the path, holds no `/`, and is the whole path or follows a `/` |
| Paths.Basename | rag_engine.py:124 | `os.path.basename(path)`: what follows the last `/`; `BasenameShape` states its shape |
| Paths.KindByExtension | rag_engine.py:104-112 | a path is a PDF exactly when its lower-cased extension is `.pdf`, and text exactly when it is `.txt` |
| Paths.KindBySuffix | rag_bot.py:17-22 | a path is a PDF exactly when it ends with `.pdf`, and text exactly when it ends with `.txt`, case-sensitively |
| Paths.DispatchesDiffer | rag_engine.py:104-105 | `notes.PDF` is indexed by the engine and skipped by the bot; `.pdf` is skipped by the engine and loaded by the bot |
| Paths.UpperCaseExtension | rag_engine.py:104 | the extension of `notes.PDF` is `.PDF` |
| Paths.HiddenNameExtension | rag_engine.py:104-105 | `.pdf` has no extension |
| Chunking.Normalize | rag_engine.py:78 | normalised text has no carriage return and is no longer than the input |
| Chunking.NormalizeKeepsNormalText | rag_engine.py:78 | text with no `\r` and no blank line is left unchanged |
| Chunking.NormalizeKeepsBlankLine | rag_engine.py:78 | one pass maps three newlines to two, so a blank line survives |
| Chunking.NormalizeMapsCarriageReturn | rag_engine.py:78 | for text with no two newlines in a row, normalising keeps the length, turns each `\r` into a space and keeps every other character |
| Chunking.WindowEnd | rag_engine.py:84-91 | a window ends after its start, within the text, and within `size` characters; it reaches the end of the text when the text ends within `size` |
| Chunking.WindowEndSnaps | rag_engine.py:88-91 | a window that stops short of the text's end and holds a `.` ends just after its last `.`; without one it holds exactly `size` characters |
| Chunking.NextStart | rag_engine.py:94 | the next window never starts before the previous one ends, and starts exactly there whenever the overlap is non-negative |
| Chunking.OverlapIgnored | rag_engine.py:94 | the windows are the same for every non-negative overlap as for overlap 0 |
| Chunking.WindowsBounded | rag_engine.py:83-94 | no raw window is empty and none is longer than `chunk_size` |
| Chunking.Windows | rag_engine.py:80-94 | the raw windows the loop cuts from `start` on; `WindowsBounded`, `WindowsTile`, `WindowAt` and `OverlapIgnored` state its properties |
| Chunking.WindowsTile | rag_engine.py:78-94 | with a non-negative overlap the raw windows concatenate to exactly the normalised text |
| Chunking.WindowAt | rag_engine.py:84-91 | the `i`-th window is the slice between two positions of the text, and a window followed by another stops before the text's end |
| Chunking.InnerWindowSnapped | rag_engine.py:84-91 | a window that is not the last holds exactly `size` characters when it has no `.`, and otherwise ends with its last `.` |
| Chunking.StripAllClean | rag_engine.py:93 | every stripped window is its own strip |
| Chunking.StripAll | rag_engine.py:93 | one stripped string per window, as many as there are windows |
| Chunking.KeepAppend | rag_engine.py:96 | the filter works element by element: filtering `a + b` filters `a`, then `b` |
| Chunking.Keep | rag_engine.py:96 | `[c for c in chunks if c]`; `KeepAppend`, `KeepKeeps`, `KeepOrder` and `KeepOnly` state its meaning |
| Chunking.KeepKeeps | rag_engine.py:96 | every non-empty candidate is kept, at the position counting the non-empty candidates before it |
| Chunking.KeepOrder | rag_engine.py:96 | a non-empty candidate is kept before every later candidate |
| Chunking.KeepOnly | rag_engine.py:96 | the filter keeps only non-empty strings, each with every property all candidates share |
| Chunking.ChunksClean | rag_engine.py:93-96 | every chunk is non-empty and already stripped |
| Chunking.ChunksAreSpans | rag_engine.py:83-96 | every chunk occurs in the normalised text |
| Chunking.SplitChunks | rag_engine.py:76-96 | what `_split_text` returns: the non-empty stripped windows of the normalised text; `ChunksClean`, `ChunksAreSpans`, `WindowKept` and `ShortText` state its properties |
| Chunking.WindowKept | rag_engine.py:83-96 | every window that is not blank gives a chunk, its stripped text, after the chunks of the windows before it |
| Chunking.ShortText | rag_engine.py:83-96 | a normalised text that fits in one window gives `[text.strip()]`, or `[]` when it is all whitespace (the empty text included) |
| Chunking.SplitText | rag_engine.py:76-96 | the loop ends for every positive chunk size and returns the specified chunks, each non-empty and stripped |
| Chunking.PieceStep | rag_engine.py:84-94 | one loop turn produces the next stripped window |
| Engine.LabelAt | rag_engine.py:120-127 | the `q`-th chunk of a file carries the `q`-th id, the file's basename and the `q`-th piece |
| Engine.Label | rag_engine.py:120-127 | one chunk per piece, in order; `LabelAt` states each entry |
| Engine.FileLoaded | rag_engine.py:104-127 | a readable `.pdf`/`.txt` file gives its split text labelled with its basename |
| Engine.FileSkipped | rag_engine.py:104-115 | a file with another extension, or one whose reading raises, gives no chunk |
| Engine.FileYields | rag_engine.py:103-127 | a file gives chunks exactly when it is readable and its split text is not empty |
| Engine.Loaded | rag_engine.py:104-115 | the text `build_index` reads from a path: none for another extension or a failed read; `FileLoaded` and `FileSkipped` state it |
| Engine.FileChunks | rag_engine.py:104-127 | the chunks one file contributes; `FileLoaded`, `FileSkipped`, `FileYields` and `FileEntry` state them |
| Engine.Gather | rag_engine.py:103-127 | the chunks of all files, in file order, ids counting on; `GatherAppend`, `GatherOrigin`, `GatherEmptyIff` and `ChunkOrigin` state them |
| Engine.GatherAppend | rag_engine.py:103-127 | the chunks of `a + b` are those of `a` followed by those of `b`, whose ids continue where `a`'s stopped |
| Engine.GatherEmptyIff | rag_engine.py:103-129 | nothing is gathered exactly when every file gives nothing |
| Engine.GatherOrigin | rag_engine.py:103-127 | each gathered chunk is an entry of one file's chunk list |
| Engine.NoChunksIff | rag_engine.py:103-130 | no chunk results exactly when every file is skipped, unreadable or blank |
| Engine.FileEntry | rag_engine.py:120-127 | an entry of a file's chunk list is a piece of its text with the basename and the matching id |
| Engine.ChunkOrigin | rag_engine.py:103-127 | the `j`-th chunk has id `first + j`, the basename of a file that yields chunks, and a piece split from that file's text |
| Engine.GatherChunksValid | rag_engine.py:120-127 | ids count up from the first id, and every chunk is non-empty stripped text |
| Engine.Resolve | rag_engine.py:153-157 | never more chunks than positions returned |
| Engine.ResolveAppend | rag_engine.py:154-156 | search order is kept, and each position contributes independently |
| Engine.ResolveFrom | rag_engine.py:154-156 | every retrieved chunk is the chunk at a returned position within range |
| Engine.ResolveInRange | rag_engine.py:154-156 | when all positions are in range, each gives its chunk, in order |
| Engine.ResolveFlatCount | rag_engine.py:151-157 | with a flat index padding with -1, `min(k, len(chunks))` chunks are retrieved |
| Engine.PromptShape | rag_engine.py:164-176 | stripping removes only the template's outer line breaks: the prompt is instructions, numbered context, `Question: ` and the query, then closing instructions |
| Engine.BuildPrompt | rag_engine.py:159-176 | `_build_prompt`: the stripped template filled with the numbered context and the query; `PromptShape` and `PromptCites` state its content |
| Engine.Citation | rag_engine.py:161 | one context entry `[n] From <source>:\n<content>`; `PromptCites` states where it appears |
| Engine.Citations | rag_engine.py:160-162 | one citation per retrieved chunk, numbered from 1 |
| Engine.Context | rag_engine.py:160-162 | the citations joined by blank lines; `PromptCites` and `JoinContains` state that each citation occurs in it |
| Engine.PromptCites | rag_engine.py:159-176 | every retrieved chunk is cited in the prompt as `[i+1] From <source>:\n<content>` |
| Engine.FallbackQuotes | rag_engine.py:186-193 | the fallback answer quotes every retrieved chunk as `From <source>:\n<content>` |
| Engine.Snippets | rag_engine.py:187-189 | one `From <source>:\n<content>` entry per retrieved chunk |
| Engine.FallbackAnswer | rag_engine.py:187-193 | the fixed head followed by the snippets joined by `\n\n---\n\n`; `FallbackQuotes` states that it quotes every chunk |
| Engine.Respond | rag_engine.py:186-210 | the answer text for the retrieved chunks: the fallback snippets without a client, otherwise the completion or `Error contacting LLM: ...`; `FallbackQuotes` and `LlmFailureIsReported` state its cases |
| Engine.LlmFailureIsReported | rag_engine.py:199-210 | a failed LLM call gives `Error contacting LLM: ...`, which differs from the fallback answer |
| Engine.RAGEngine.constructor | rag_engine.py:33-47 | no chunks and no index; an LLM client exactly when the API key is set and non-empty |
| Engine.RAGEngine.BuildIndex | rag_engine.py:98-142 | the chunks are rebuilt from the files; with none, `NoChunks` and the old index kept; otherwise one vector per chunk and `(len(paths), len(chunks))`; the engine stays valid |
| Engine.RAGEngine.AddFile | rag_engine.py:103-127 | one round of the loop appends that file's chunks, with ids from the counter |
| Engine.RAGEngine.AppendLabelled | rag_engine.py:120-127 | the inner loop appends one chunk per piece with consecutive fresh ids |
| Engine.RAGEngine.Retrieve | rag_engine.py:146-157 | `IndexNotBuilt` without index or chunks; otherwise the in-range chunks at the returned positions, in order |
| Engine.RAGEngine.Answer | rag_engine.py:178-212 | no index: the request to index and no chunks; otherwise the retrieved chunks with the fallback snippets, the LLM text or the LLM error |
| Engine.RebuildWithoutChunks | rag_engine.py:129-130 | a rebuild from files that give no chunk fails, keeps the old index, and the next answer fails with `IndexNotBuilt` |
| Bot.LoadedDocsAppend | rag_bot.py:13-31 | the documents of `a + b` are those of `a` followed by those of `b` |
| Bot.DocOrigin | rag_bot.py:15-26 | every loaded document is one the loader gave for a path ending in `.pdf` or `.txt` |
| Bot.OtherSuffixSkipped | rag_bot.py:17-22 | a path ending in neither `.pdf` nor `.txt` adds nothing |
| Bot.DocsOf | rag_bot.py:16-29 | the documents one path contributes: those of a `.pdf`/`.txt` path that loads, otherwise none |
| Bot.LoadedDocs | rag_bot.py:13-31 | the documents of all paths, in path order; `LoadedDocsAppend`, `DocOrigin` and `OtherSuffixSkipped` state them |
| Bot.Score | rag_bot.py:48 | a score never exceeds the number of question words |
| Bot.ScoreAppend | rag_bot.py:48 | scores add up over the words, so a repeated word counts once per occurrence |
| Bot.ScoreZeroIff | rag_bot.py:48 | a score is zero exactly when no question word occurs in the content |
| Bot.ScorePositive | rag_bot.py:53 | a positive score implies non-empty content |
| Bot.DocScore | rag_bot.py:42-48 | the score of a document for a question: its lower-cased question words found in its lower-cased content |
| Bot.Scores | rag_bot.py:46-48 | one score per document |
| Bot.FirstMaxUnique | rag_bot.py:46-51 | the first maximum is unique |
| Bot.FirstMax | rag_bot.py:46-51 | the position `ask` picks: the highest score, with every earlier score strictly lower |
| Bot.NotBeforeFirstMax | rag_bot.py:49 | no position with the top score comes before the first maximum |
| Bot.MatchReply | rag_bot.py:54 | the reply is the fixed head, the first 500 characters of the content, then the fixed tail |
| Bot.RAGBot.constructor | rag_bot.py:10-11 | a new bot has no documents |
| Bot.RAGBot.LoadDocuments | rag_bot.py:13-31 | the documents of the `.pdf`/`.txt` paths that load, in path order, replace the bot's documents and are returned |
| Bot.RAGBot.CreateVectorStore | rag_bot.py:33-36 | an empty list is refused with "No documents!" and changes nothing; otherwise it becomes the documents |
| Bot.RAGBot.Ask | rag_bot.py:38-56 | no documents: "Load documents first!"; every score zero: the no-match reply; otherwise the excerpt of the first document with the highest score |

## Left out

- **Embeddings and FAISS** (`SentenceTransformer`, `IndexFlatL2`, `search`). The index is the
  list of texts it embeds, one per chunk. Search is the `Search` parameter, and float32
  distances are not modelled. Embedding cannot fail in the model. In the code, `encode` or
  `IndexFlatL2` raising after `self.chunks` was rebuilt (rag_engine.py:100, 120-127, 134-140)
  would leave the new chunks with the old index. `RAGEngine.Valid` (one stored vector per chunk)
  rules that state out.
- **File reading** (`load_txt`, `load_pdf`, pypdf, `TextLoader`, `PyPDFLoader`). This is I/O,
  so it is the `Loader`/`DocLoader` parameter. `None` stands for an exception.
- **`RAGEngine.load_documents`** (rag_engine.py:62-74). It only joins file texts for statistics
  and is I/O over the same readers. `build_index` does not use it.
- **`all_text`** in `build_index`. It is accumulated but never read.
- **The OpenAI chat call** (model name, temperature, system message). It is the `Generator`
  parameter. A completion whose message content is `None` is not modelled.
- **Chat replies vary.** The `Generator` is a function fixed when the engine is built, so in the
  model the same prompt always gets the same reply. The real chat call (temperature 0.3) does
  not promise that. No property proved here depends on it.
- **Environment and printing.** `load_dotenv` and `os.getenv` are not modelled: the API key is
  a parameter of the constructor. `print` logging is not modelled.
- **The stored id.** A uuid4 string is modelled by a counter that only grows. Uniqueness is
  kept, and the string format is not modelled.
- **`save_vector_store` and `load_vector_store`.** Both are no-ops.
- **The Streamlit front-ends.**
- **Document metadata.** langchain `Document` metadata is not modelled; only `page_content` is
  used.
- **Text.Lower: ASCII only.** It lower-cases only ASCII letters. Python's `lower()` also maps
  non-ASCII letters.
- **Paths.ExtensionShape: POSIX only.** Only `/` is a separator. Windows-style `\` paths are
  not modelled.
- **Chunking.Normalize: the second pass is only partly stated.** Its own contract gives no
  `\r` left and no growth. `NormalizeMapsCarriageReturn` states the `\r`-to-space mapping for
  text with no two newlines in a row. For other text, `ReplaceChar` states the first pass, and the
  `"\n\n"` pass has only the properties of `Text.Replace`.
- **Chunking.SplitText: positive chunk size only.** With `chunk_size <= 0` and a non-negative
  overlap, the loop at rag_engine.py:83-94 never ends on non-empty text, because `end <= start`
  and the next start is `end`. The requirement `chunkSize > 0` is what makes the loop terminate.
  The only call (rag_engine.py:118) passes 700.
- **Text.Replace: partial properties.** They are length, the characters it can produce, and a
  one-character pattern with a replacement not containing that character vanishing. No full
  characterisation of left-to-right non-overlapping replacement is stated beyond its
  definition.
- **Engine.RAGEngine.Retrieve: `k` bound needs the flat-index shape.** The result holds at most
  `k` chunks only when the search returns `k` positions. `ResolveFlatCount` states the count
  for a search answer shaped like FAISS's (`FlatAnswer`).
