/** `RAGBot` (rag_bot.py): the keyword-overlap fallback. Documents are loaded by a case-sensitive
    test of the path's ending, and a question is answered with an excerpt of the first document
    that shares the most question words with it.

    The langchain loaders are a `DocLoader` that gives the documents of a file, or nothing when
    loading raises. */
module Bot {
  import opened Wrappers
  import opened Text
  import opened Paths

  /** A langchain `Document`; only its `page_content` is used. */
  datatype Document = Document(pageContent: string)

  type DocLoader = (FileKind, string) -> Option<seq<Document>>

  const LoadFirstText: string := "Load documents first!"
  const NoMatchText: string := "No matching information found. Try different keywords."
  const NoDocumentsText: string := "No documents!"
  const MatchHead: string := "Found in your documents:\n\n"
  const MatchTail: string := "...\n\n(Based on keyword search)"
  const ExcerptLength := 500

  // ---------- load_documents ----------

  /** The documents one path contributes: those of a `.pdf` or `.txt` path that loads, and
      nothing otherwise. */
  function DocsOf(path: string, load: DocLoader): seq<Document> {
    match KindBySuffix(path)
    case None => []
    case Some(kind) =>
      match load(kind, path)
      case None => []
      case Some(docs) => docs
  }

  /** The documents `load_documents` collects, path after path. */
  function LoadedDocs(paths: seq<string>, load: DocLoader): seq<Document> {
    if paths == [] then []
    else LoadedDocs(paths[..|paths| - 1], load) + DocsOf(paths[|paths| - 1], load)
  }

  /** Paths are processed in order: the documents of `a + b` are those of `a`, then those of `b`. */
  lemma {:induction false} LoadedDocsAppend(a: seq<string>, b: seq<string>, load: DocLoader)
    ensures LoadedDocs(a + b, load) == LoadedDocs(a, load) + LoadedDocs(b, load)
    decreases |b|
  {
    if b == [] {
      assert a + b == a;
    } else {
      var b' := b[..|b| - 1];
      assert (a + b)[..|a + b| - 1] == a + b';
      assert (a + b)[|a + b| - 1] == b[|b| - 1];
      LoadedDocsAppend(a, b', load);
      AppendAssoc(LoadedDocs(a, load), LoadedDocs(b', load), DocsOf(b[|b| - 1], load));
    }
  }

  /** Every loaded document is one of the documents the loader gave for a path ending in
      `.pdf` or `.txt`. */
  lemma {:induction false} DocOrigin(paths: seq<string>, load: DocLoader, j: nat) returns (p: nat, q: nat)
    requires j < |LoadedDocs(paths, load)|
    ensures p < |paths| && KindBySuffix(paths[p]).Some?
    ensures load(KindBySuffix(paths[p]).value, paths[p]).Some?
    ensures q < |load(KindBySuffix(paths[p]).value, paths[p]).value|
    ensures LoadedDocs(paths, load)[j] == load(KindBySuffix(paths[p]).value, paths[p]).value[q]
    decreases |paths|
  {
    var init := paths[..|paths| - 1];
    var before := LoadedDocs(init, load);
    if j < |before| {
      p, q := DocOrigin(init, load, j);
      assert init[p] == paths[p];
    } else {
      p, q := |paths| - 1, j - |before|;
    }
  }

  /** A path that ends in neither `.pdf` nor `.txt` (`.PDF` included) adds nothing. */
  lemma OtherSuffixSkipped(path: string, load: DocLoader)
    requires !EndsWith(path, ".pdf") && !EndsWith(path, ".txt")
    ensures LoadedDocs([path], load) == []
  {
    assert [path][..0] == [];
  }

  // ---------- ask: scoring ----------

  /** `sum(1 for word in words if word in content)`: each word, repeats included, that occurs
      in `content`. */
  function Score(words: seq<string>, content: string): (n: nat)
    ensures n <= |words|
  {
    if words == [] then 0
    else Score(words[..|words| - 1], content) + (if IsSubstring(words[|words| - 1], content) then 1 else 0)
  }

  /** Scores add up over the words, so a repeated word counts once per occurrence. */
  lemma {:induction false} ScoreAppend(a: seq<string>, b: seq<string>, content: string)
    ensures Score(a + b, content) == Score(a, content) + Score(b, content)
    decreases |b|
  {
    if b != [] {
      var b' := b[..|b| - 1];
      assert (a + b)[..|a + b| - 1] == a + b';
      assert (a + b)[|a + b| - 1] == b[|b| - 1];
      ScoreAppend(a, b', content);
    } else {
      assert a + b == a;
    }
  }

  /** A score is zero exactly when no word occurs in the content. */
  lemma {:induction false} ScoreZeroIff(words: seq<string>, content: string)
    ensures Score(words, content) == 0 <==> forall i :: 0 <= i < |words| ==> !IsSubstring(words[i], content)
    decreases |words|
  {
    if words != [] {
      var init := words[..|words| - 1];
      ScoreZeroIff(init, content);
      assert forall i :: 0 <= i < |init| ==> init[i] == words[i];
    }
  }

  /** A positive score needs some word to occur, so words that are never empty make the content
      non-empty. */
  lemma ScorePositive(words: seq<string>, content: string)
    requires forall i :: 0 <= i < |words| ==> IsWord(words[i])
    requires Score(words, content) > 0
    ensures content != []
  {
    ScoreZeroIff(words, content);
    var i :| 0 <= i < |words| && IsSubstring(words[i], content);
    assert IsWord(words[i]);
  }

  /** The score `ask` gives a document for a question. */
  function DocScore(question: string, doc: Document): nat {
    Score(Words(Lower(question)), Lower(doc.pageContent))
  }

  /** `b` holds the highest score, and every earlier position a strictly lower one. */
  predicate FirstMax(scores: seq<nat>, b: int) {
    && 0 <= b < |scores|
    && (forall i :: 0 <= i < |scores| ==> scores[i] <= scores[b])
    && (forall i :: 0 <= i < b ==> scores[i] < scores[b])
  }

  /** Ties go to the earliest document: at most one position is the first maximum. */
  lemma FirstMaxUnique(scores: seq<nat>, b: int, c: int)
    requires FirstMax(scores, b) && FirstMax(scores, c)
    ensures b == c
  {
    NotBeforeFirstMax(scores, b, c);
    NotBeforeFirstMax(scores, c, b);
  }

  /** A position holding the highest score cannot come after the first maximum. */
  lemma NotBeforeFirstMax(scores: seq<nat>, b: int, c: int)
    requires FirstMax(scores, b) && 0 <= c < |scores| && scores[c] == scores[b]
    ensures b <= c
  {
  }

  function Scores(question: string, docs: seq<Document>): (scores: seq<nat>)
    ensures |scores| == |docs|
  {
    seq(|docs|, i requires 0 <= i < |docs| => DocScore(question, docs[i]))
  }

  /** The reply for a chosen document: the fixed head, the first 500 characters, the fixed tail. */
  function MatchReply(content: string): (reply: string)
    ensures |reply| == |MatchHead| + Min(ExcerptLength, |content|) + |MatchTail|
    ensures reply[..|MatchHead|] == MatchHead
    ensures reply[|MatchHead|..|MatchHead| + Min(ExcerptLength, |content|)] == content[..Min(ExcerptLength, |content|)]
    ensures reply[|reply| - |MatchTail|..] == MatchTail
  {
    MatchHead + Take(content, ExcerptLength) + MatchTail
  }

  // ---------- the bot ----------

  class RAGBot {
    var documents: seq<Document>

    constructor()
      ensures documents == []
    {
      documents := [];
    }

    /** `load_documents`: the documents of the `.pdf` and `.txt` paths, in path order, replace
        the bot's documents and are returned. */
    method LoadDocuments(paths: seq<string>, load: DocLoader) returns (docs: seq<Document>)
      modifies this
      ensures docs == LoadedDocs(paths, load)
      ensures documents == docs
    {
      docs := [];
      var i := 0;
      while i < |paths|
        invariant 0 <= i <= |paths|
        invariant docs == LoadedDocs(paths[..i], load)
      {
        TakeSnoc(paths, i);
        var path := paths[i];
        if EndsWith(path, ".pdf") {
          var loaded := load(Pdf, path);
          if loaded.Some? && loaded.value != [] {
            docs := docs + loaded.value;
          }
        } else if EndsWith(path, ".txt") {
          var loaded := load(Txt, path);
          if loaded.Some? && loaded.value != [] {
            docs := docs + loaded.value;
          }
        }
        i := i + 1;
      }
      assert paths[..i] == paths;
      documents := docs;
    }

    /** `create_vector_store`: an empty list is refused with "No documents!" and changes
        nothing; otherwise it becomes the bot's documents. */
    method CreateVectorStore(docs: seq<Document>) returns (r: Result<(), string>)
      modifies this
      ensures docs == [] ==> r == Err(NoDocumentsText) && documents == old(documents)
      ensures docs != [] ==> r == Ok(()) && documents == docs
    {
      if docs == [] {
        return Err(NoDocumentsText);
      }
      documents := docs;
      r := Ok(());
    }

    /** `ask`: without documents, the request to load some; when no document shares a word with
        the question, the no-match reply; otherwise the excerpt reply for `best`, the first
        document with the highest score. */
    method Ask(question: string) returns (reply: string, ghost best: int)
      ensures -1 <= best < |documents|
      ensures documents == [] ==> reply == LoadFirstText
      ensures best == -1 <==> forall i :: 0 <= i < |documents| ==> DocScore(question, documents[i]) == 0
      ensures documents != [] && best == -1 ==> reply == NoMatchText
      ensures best >= 0 ==> && FirstMax(Scores(question, documents), best)
                            && DocScore(question, documents[best]) > 0
                            && reply == MatchReply(documents[best].pageContent)
    {
      best := -1;
      if documents == [] {
        return LoadFirstText, best;
      }
      var words := Words(Lower(question));
      var bestMatch: Option<string> := None;
      var bestScore: nat := 0;
      var i := 0;
      while i < |documents|
        invariant 0 <= i <= |documents|
        invariant -1 <= best < i
        invariant best == -1 ==> bestScore == 0 && bestMatch == None
        invariant best == -1 ==> forall m :: 0 <= m < i ==> DocScore(question, documents[m]) == 0
        invariant best >= 0 ==> && bestScore == DocScore(question, documents[best]) > 0
                                && bestMatch == Some(documents[best].pageContent)
                                && (forall m :: 0 <= m < i ==> DocScore(question, documents[m]) <= bestScore)
                                && (forall m :: 0 <= m < best ==> DocScore(question, documents[m]) < bestScore)
      {
        var content := Lower(documents[i].pageContent);
        var score := Score(words, content);
        if score > bestScore {
          bestScore := score;
          bestMatch := Some(documents[i].pageContent);
          best := i;
        }
        i := i + 1;
      }
      if best >= 0 {
        ScorePositive(words, Lower(documents[best].pageContent));
      }
      if bestMatch.Some? && bestMatch.value != [] {
        reply := MatchHead + Take(bestMatch.value, ExcerptLength) + MatchTail;
      } else {
        reply := NoMatchText;
      }
    }
  }
}
