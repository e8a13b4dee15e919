/** POSIX `os.path.splitext` and `os.path.basename`, and how each engine decides that a path
    names a PDF or a text file. */
module Paths {
  import opened Wrappers
  import opened Text

  datatype FileKind = Pdf | Txt

  /** The name has no character other than `.`. */
  predicate OnlyDots(s: string)
    decreases |s|
  {
    s == [] || (s[0] == '.' && OnlyDots(s[1..]))
  }

  /** `os.path.splitext(p)[1]`: from the last `.` of the final path component, provided that
      component has a character other than `.` before it (so `.bashrc` has no extension). */
  function Extension(p: string): string
  {
    var sep := RFind(p, '/');
    var dot := RFind(p, '.');
    if dot > sep && !OnlyDots(p[sep + 1..dot]) then p[dot..] else []
  }

  /** An extension is a final run of the path that starts with its only `.` and holds no `/`. */
  lemma ExtensionShape(p: string)
    ensures var ext := Extension(p);
            ext == [] || (ext[0] == '.' && EndsWith(p, ext) && '.' !in ext[1..] && '/' !in ext)
  {
    var sep := RFind(p, '/');
    var dot := RFind(p, '.');
    RFindFacts(p, '/');
    RFindFacts(p, '.');
    if dot > sep && !OnlyDots(p[sep + 1..dot]) {
      NotInDrop('/', p, sep + 1, dot);
      NotInDrop('.', p, dot + 1, dot + 1);
      assert p[dot..][1..] == p[dot + 1..];
    }
  }

  lemma {:induction false} OnlyDotsAll(s: string)
    ensures OnlyDots(s) <==> forall k :: 0 <= k < |s| ==> s[k] == '.'
    decreases |s|
  {
    if s != [] {
      OnlyDotsAll(s[1..]);
      assert forall k :: 1 <= k < |s| ==> s[k] == s[1..][k - 1];
    }
  }

  /** The extension is empty exactly when no `.` of the final component follows a character
      other than `.` (no `.` at all, or only leading dots as in `.bashrc` and `..`). */
  lemma ExtensionEmptyIff(p: string)
    ensures var b := Basename(p);
            Extension(p) == [] <==> forall i, k :: 0 <= k < i < |b| && b[i] == '.' ==> b[k] == '.'
  {
    var sep := RFind(p, '/');
    var dot := RFind(p, '.');
    RFindFacts(p, '/');
    RFindFacts(p, '.');
    var b := p[sep + 1..];
    if dot <= sep {
      if dot >= 0 {
        NotInDrop('.', p, dot + 1, sep + 1);
      }
      assert forall i :: 0 <= i < |b| ==> b[i] in b;
    } else {
      var d := dot - sep - 1;
      assert b[..d] == p[sep + 1..dot];
      OnlyDotsAll(b[..d]);
      assert forall i :: d < i < |b| ==> b[i] == p[dot + 1..][i - d - 1];
      LeadingDots(b, d);
    }
  }

  /** With `d` the last `.` of `b`: every `.` follows only dots exactly when the last one does. */
  lemma LeadingDots(b: string, d: nat)
    requires d < |b| && b[d] == '.'
    requires forall i :: d < i < |b| ==> b[i] != '.'
    ensures (forall k :: 0 <= k < d ==> b[..d][k] == '.')
            <==> forall i, k :: 0 <= k < i < |b| && b[i] == '.' ==> b[k] == '.'
  {
    if forall k :: 0 <= k < d ==> b[..d][k] == '.' {
      forall i, k | 0 <= k < i < |b| && b[i] == '.'
        ensures b[k] == '.'
      {
        assert b[..d][k] == b[k];
      }
    }
  }

  /** A name whose stem holds a character other than `.` has the extension after its last `.`,
      whatever directory it is in. */
  lemma ExtensionOf(dir: string, stem: string, e: string)
    requires dir == [] || dir[|dir| - 1] == '/'
    requires '/' !in stem && '/' !in e && '.' !in e && !OnlyDots(stem)
    ensures Extension(dir + stem + "." + e) == "." + e
  {
    var p := dir + stem + "." + e;
    var n := stem + "." + e;
    assert p == dir + n && p == (dir + stem) + ("." + e);
    RFindAt("." + e, '.', 0);
    RFindAppend(dir + stem, "." + e, '.');
    assert RFind(p, '.') == |dir| + |stem|;
    assert '/' !in n;
    RFindAppend(dir, n, '/');
    assert RFind(dir, '/') == |dir| - 1;
    assert p[|dir|..|dir| + |stem|] == stem;
    assert p[|dir| + |stem|..] == "." + e;
    ExtensionFrom(p, |dir| - 1, |dir| + |stem|);
  }

  lemma ExtensionFrom(p: string, sep: int, dot: int)
    requires sep == RFind(p, '/') && dot == RFind(p, '.') && sep < dot
    requires !OnlyDots(p[sep + 1..dot])
    ensures Extension(p) == p[dot..]
  {
  }

  /** `os.path.basename(p)`: what follows the last `/`. */
  function Basename(p: string): string
  {
    p[RFind(p, '/') + 1..]
  }

  /** The basename ends the path, holds no `/`, and is the whole path or follows a `/`. */
  lemma BasenameShape(p: string)
    ensures var b := Basename(p);
            EndsWith(p, b) && '/' !in b && (|b| < |p| ==> p[|p| - |b| - 1] == '/')
  {
    var sep := RFind(p, '/');
    RFindFacts(p, '/');
    var b := p[sep + 1..];
    assert p[|p| - |b|..] == b;
    if sep == -1 {
      assert b == p;
    }
  }

  /** The dispatch of `RAGEngine.build_index`: the lower-cased extension must be `.pdf` or `.txt`. */
  function KindByExtension(p: string): (k: Option<FileKind>)
    ensures k == Some(Pdf) <==> Lower(Extension(p)) == ".pdf"
    ensures k == Some(Txt) <==> Lower(Extension(p)) == ".txt"
  {
    var ext := Lower(Extension(p));
    if ext == ".pdf" then Some(Pdf) else if ext == ".txt" then Some(Txt) else None
  }

  /** The dispatch of `RAGBot.load_documents`: a case-sensitive test of the path's ending. */
  function KindBySuffix(p: string): (k: Option<FileKind>)
    ensures k == Some(Pdf) <==> EndsWith(p, ".pdf")
    ensures k == Some(Txt) <==> EndsWith(p, ".txt")
  {
    if EndsWith(p, ".pdf") then Some(Pdf) else if EndsWith(p, ".txt") then Some(Txt) else None
  }

  /** The two dispatches disagree: an upper-case extension is indexed by the engine but skipped
      by the keyword bot, and a bare `.pdf` is skipped by the engine but loaded by the bot. */
  lemma DispatchesDiffer()
    ensures KindByExtension("notes.PDF") == Some(Pdf) && KindBySuffix("notes.PDF") == None
    ensures KindByExtension(".pdf") == None && KindBySuffix(".pdf") == Some(Pdf)
  {
    EngineTakesUpperCase();
    BotSkipsUpperCase();
    EngineSkipsHiddenName();
    assert EndsWith(".pdf", ".pdf");
  }

  lemma EngineTakesUpperCase()
    ensures KindByExtension("notes.PDF") == Some(Pdf)
  {
    UpperCaseExtension();
    var up := Lower(".PDF");
    assert up[0] == '.' && up[1] == 'p' && up[2] == 'd' && up[3] == 'f';
    assert up == ".pdf";
  }

  lemma BotSkipsUpperCase()
    ensures KindBySuffix("notes.PDF") == None
  {
    assert !EndsWith("notes.PDF", ".pdf") by { assert "notes.PDF"[6] != 'p'; }
    assert !EndsWith("notes.PDF", ".txt") by { assert "notes.PDF"[6] != 't'; }
  }

  lemma EngineSkipsHiddenName()
    ensures KindByExtension(".pdf") == None
  {
    HiddenNameExtension();
    assert Lower([]) == [];
  }

  lemma UpperCaseExtension()
    ensures Extension("notes.PDF") == ".PDF"
  {
    var p := "notes.PDF";
    forall j | 0 <= j < |p| ensures p[j] != '/' {
    }
    RFindNone(p, '/');
    forall j | 5 < j < |p| ensures p[j] != '.' {
    }
    RFindAt(p, '.', 5);
    assert p[0] != '.';
    assert p[5..] == ".PDF";
  }

  lemma HiddenNameExtension()
    ensures Extension(".pdf") == []
  {
    var q := ".pdf";
    forall j | 0 <= j < |q| ensures q[j] != '/' {
    }
    RFindNone(q, '/');
    forall j | 0 < j < |q| ensures q[j] != '.' {
    }
    RFindAt(q, '.', 0);
    assert q[0..0] == [];
  }
}
