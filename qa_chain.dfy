/** The source-attribution context assembler of the question-answering chain:
    the static table of rule names, the mapping from a document's source path
    to a display name, and the rendering of retrieved documents into the
    labelled context block handed to the language model. */
module QaChain {
  import opened Text

  datatype Option<T> = None | Some(value: T)

  /** A retrieved passage: the `source` entry of its metadata (`None` when the
      key is absent or holds no value) and its page content. */
  datatype Document = Document(source: Option<string>, pageContent: string)

  /** Lower-cased PDF file name -> display name of the rule set it holds. */
  const SourceDisplayNames: map<string, string> := map[
    "kyougi_kitei.pdf" := "競技規定",
    "kyougi_saisoku.pdf" := "競技細則",
    "kyougi_saisoku_dantai.pdf" := "競技細則（団体）",
    "kyougikai_kitei.pdf" := "競技会規定"
  ]

  /** The label of a passage whose source is unknown ("official document"). */
  const DefaultName: string := "公式文書"

  /** The extension removed from unrecognised file names. */
  const Pdf: string := ".pdf"

  /** The blank line put between two labelled passages. */
  const Separator: string := "\n\n"

  /** The table key a non-empty source path is looked up under. */
  function LookupKey(source: string): (key: string)
    ensures |key| <= |source|
    ensures forall k :: 0 <= k < |key| ==> key[k] != '/' && !('A' <= key[k] <= 'Z')
  {
    Lower(Basename(source))
  }

  /** Display name of a source path: the generic label for an empty path, the
      table entry for a known file name, otherwise the lower-cased file name
      with every `.pdf` taken out. */
  function DisplayName(source: string): string
  {
    if source == "" then DefaultName
    else
      var key := LookupKey(source);
      if key in SourceDisplayNames then SourceDisplayNames[key] else RemoveAll(key, Pdf)
  }

  /** `doc.metadata.get("source", "")`. */
  function SourceOf(doc: Document): string
  {
    match doc.source
    case None => ""
    case Some(s) => s
  }

  /** One labelled passage: `【name】`, a newline, then the page content. */
  function Part(doc: Document): string
  {
    "【" + DisplayName(SourceOf(doc)) + "】\n" + doc.pageContent
  }

  /** The labelled passage of every document, in retrieval order. */
  function Parts(docs: seq<Document>): seq<string>
  {
    Map(Part, docs)
  }

  /** The context block: the labelled passages separated by blank lines. */
  function Context(docs: seq<Document>): string
  {
    Join(Parts(docs), Separator)
  }

  /** Builds the context block as the chain does: one pass over the documents
      collecting labelled passages, then a single join. */
  method FormatContextWithSources(docs: seq<Document>) returns (context: string)
    ensures context == Context(docs)
  {
    var parts: seq<string> := [];
    for i := 0 to |docs|
      invariant |parts| == i
      invariant forall k :: 0 <= k < i ==> parts[k] == Part(docs[k])
    {
      var name := DisplayName(SourceOf(docs[i]));
      parts := parts + ["【" + name + "】\n" + docs[i].pageContent];
    }
    assert parts == Parts(docs);
    context := Join(parts, Separator);
  }

  // ---------------------------------------------------------------------
  // Display names
  // ---------------------------------------------------------------------

  /** An empty source is labelled with the generic name and is never looked up. */
  lemma EmptySourceName()
    ensures DisplayName("") == DefaultName
  {
  }

  /** A document without a source is labelled exactly like one whose source is
      empty, that is with the generic name. */
  lemma MissingSourceName(content: string)
    ensures Part(Document(None, content)) == Part(Document(Some(""), content))
    ensures DisplayName(SourceOf(Document(None, content))) == DefaultName
  {
  }

  /** The directory part of a path never changes its display name. */
  lemma DirectoryIrrelevant(dir: string, path: string)
    requires path != ""
    ensures DisplayName(dir + "/" + path) == DisplayName(path)
  {
    BasenameAfterDirectory(dir, path);
  }

  /** Paths that differ only in letter case get the same display name. */
  lemma CaseIrrelevant(p: string, q: string)
    requires Lower(p) == Lower(q)
    ensures DisplayName(p) == DisplayName(q)
  {
    BasenameLower(p);
    BasenameLower(q);
  }

  /** A path whose lower-cased file name is a table key gets that key's rule
      name, whatever its directory and letter case. */
  lemma KnownFileName(path: string)
    requires LookupKey(path) in SourceDisplayNames
    ensures DisplayName(path) == SourceDisplayNames[LookupKey(path)]
    ensures DisplayName(path) in SourceDisplayNames.Values
  {
    assert "" !in SourceDisplayNames;
  }

  /** `.pdf` cannot overlap itself, so removal sees each occurrence whole. */
  lemma PdfNoSelfOverlap()
    ensures NoSelfOverlap(Pdf)
  {
  }

  /** An unrecognised file name falls back to itself, lower-cased, with
      exactly the characters inside occurrences of `.pdf` deleted and every
      other character kept in order, not merely a trailing extension cut. */
  lemma UnknownFileName(path: string)
    requires path != "" && LookupKey(path) !in SourceDisplayNames
    ensures DisplayName(path) == KeepUncovered(LookupKey(path), Pdf, 0)
    ensures DisplayName(path) == LookupKey(path) <==> forall j :: !StartsAt(LookupKey(path), Pdf, j)
  {
    PdfNoSelfOverlap();
    RemoveAllDeletesOccurrences(LookupKey(path), Pdf);
    RemoveAllIdentity(LookupKey(path), Pdf);
  }

  /** A display name is empty exactly when the path is non-empty, its file
      name is not in the table and every character of it lies inside an
      occurrence of `.pdf`. */
  lemma EmptyDisplayName(path: string)
    ensures DisplayName(path) == "" <==>
      path != "" && LookupKey(path) !in SourceDisplayNames &&
      forall k :: 0 <= k < |LookupKey(path)| ==> Covered(LookupKey(path), Pdf, k)
  {
    if path != "" && LookupKey(path) !in SourceDisplayNames {
      UnknownFileName(path);
      KeepUncoveredNone(LookupKey(path), Pdf, 0);
    }
  }

  // ---------------------------------------------------------------------
  // Worked examples
  //
  // Three concrete paths, each stated by one lemma with a doc comment:
  // UpperCaseFileName, EmptyDisplayNameExamples and SinglePassRemoval.
  // The undocumented lemmas after each are evaluation steps for it, not
  // further properties: every one fixes a single fact about a literal, and
  // they are kept apart because unfolding basename, case folding and the
  // table lookup on a literal in one proof is costly for the solver.
  // ---------------------------------------------------------------------

  /** An upper-case file name in a directory still finds its table entry. */
  lemma UpperCaseFileName()
    ensures DisplayName("pdfs/KYOUGI_KITEI.PDF") == "競技規定"
  {
    UpperCaseInDirectory();
    DirectoryIrrelevant("pdfs", "KYOUGI_KITEI.PDF");
    UpperCaseBareName();
  }

  lemma UpperCaseBareName()
    ensures DisplayName("KYOUGI_KITEI.PDF") == "競技規定"
  {
    UpperCaseKey();
    KnownFileName("KYOUGI_KITEI.PDF");
  }

  lemma UpperCaseInDirectory()
    ensures "pdfs/KYOUGI_KITEI.PDF" == "pdfs" + "/" + "KYOUGI_KITEI.PDF"
  {
  }

  lemma UpperCaseKey()
    ensures LookupKey("KYOUGI_KITEI.PDF") == "kyougi_kitei.pdf"
  {
    UpperCaseBasename();
    UpperCaseLower();
  }

  lemma UpperCaseBasename()
    ensures Basename("KYOUGI_KITEI.PDF") == "KYOUGI_KITEI.PDF"
  {
    BasenameNoSeparator("KYOUGI_KITEI.PDF");
  }

  lemma UpperCaseLower()
    ensures Lower("KYOUGI_KITEI.PDF") == "kyougi_kitei.pdf"
  {
  }

  /** So the fallback can be empty: a path ending in `/`, or a file called
      just `.pdf`. */
  lemma EmptyDisplayNameExamples()
    ensures DisplayName("pdfs/") == ""
    ensures DisplayName("pdfs/.pdf") == ""
  {
    TrailingSlashName();
    PdfInDirectoryName();
  }

  lemma PdfInDirectoryName()
    ensures DisplayName("pdfs/.pdf") == ""
  {
    var path := "pdfs" + "/" + Pdf;
    assert path == "pdfs/.pdf";
    DirectoryIrrelevant("pdfs", Pdf);
    PdfOnlyName();
  }

  lemma TrailingSlashName()
    ensures DisplayName("pdfs/") == ""
  {
    assert RFind("pdfs/", '/') == 4;
    assert LookupKey("pdfs/") == "";
    assert "" !in SourceDisplayNames;
  }

  lemma PdfOnlyName()
    ensures DisplayName(Pdf) == ""
  {
    PdfOnlyKey();
    PdfOnlyRemoval();
    assert Pdf !in SourceDisplayNames;
  }

  lemma PdfOnlyKey()
    ensures LookupKey(Pdf) == Pdf
  {
    PdfBasename();
    PdfLower();
  }

  lemma PdfBasename()
    ensures Basename(".pdf") == ".pdf"
  {
    BasenameNoSeparator(".pdf");
  }

  lemma PdfLower()
    ensures Lower(".pdf") == ".pdf"
  {
    LowerNoCapitals(".pdf");
  }

  lemma PdfOnlyRemoval()
    ensures RemoveAll(Pdf, Pdf) == ""
  {
    assert StartsAt(Pdf, Pdf, 0);
    assert RemoveAllFrom(Pdf, Pdf, 4) == "";
  }

  /** Removal is one pass: deleting `.pdf` from `..pdfpdf` joins the pieces
      around it into a new `.pdf`, which stays in the display name. */
  lemma SinglePassRemoval()
    ensures DisplayName("..pdfpdf") == ".pdf"
  {
    SinglePassKey();
    SinglePassScan();
    assert "..pdfpdf" !in SourceDisplayNames;
  }

  lemma SinglePassKey()
    ensures LookupKey("..pdfpdf") == "..pdfpdf"
  {
    SinglePassBasename();
    SinglePassLower();
  }

  lemma SinglePassBasename()
    ensures Basename("..pdfpdf") == "..pdfpdf"
  {
    BasenameNoSeparator("..pdfpdf");
  }

  lemma SinglePassLower()
    ensures Lower("..pdfpdf") == "..pdfpdf"
  {
    LowerNoCapitals("..pdfpdf");
  }

  lemma SinglePassScan()
    ensures RemoveAll("..pdfpdf", Pdf) == ".pdf"
  {
    var s := "..pdfpdf";
    assert RemoveAllFrom(s, Pdf, 7) == "f";
    assert RemoveAllFrom(s, Pdf, 6) == "df";
    assert s[5] == 'p' && !StartsAt(s, Pdf, 5);
    assert RemoveAllFrom(s, Pdf, 5) == "pdf";
    assert s[1..5] == Pdf;
    assert RemoveAllFrom(s, Pdf, 1) == "pdf";
    assert s[0..4][1] != Pdf[1];
    assert RemoveAllFrom(s, Pdf, 0) == [s[0]] + "pdf";
  }

  // ---------------------------------------------------------------------
  // The context block
  // ---------------------------------------------------------------------

  /** No documents, empty context. */
  lemma ContextEmpty()
    ensures Context([]) == ""
  {
  }

  /** A single document yields its labelled passage alone, with no separator. */
  lemma ContextSingle(doc: Document)
    ensures Context([doc]) == "【" + DisplayName(SourceOf(doc)) + "】\n" + doc.pageContent
  {
    assert Parts([doc]) == [Part(doc)];
  }

  /** Two non-empty runs of documents render as their two blocks separated by
      one blank line: the block is built in retrieval order. */
  lemma ContextConcat(a: seq<Document>, b: seq<Document>)
    requires a != [] && b != []
    ensures Context(a + b) == Context(a) + Separator + Context(b)
  {
    MapConcat(Part, a, b);
    JoinConcat(Parts(a), Parts(b), Separator);
  }

  /** The most relevant document comes first, followed by a blank line and
      the rest. */
  lemma ContextCons(doc: Document, rest: seq<Document>)
    requires rest != []
    ensures Context([doc] + rest) == Part(doc) + Separator + Context(rest)
  {
    ContextConcat([doc], rest);
    ContextSingle(doc);
  }

  /** The length of the block: every passage plus two characters per gap. */
  lemma ContextLength(docs: seq<Document>)
    requires docs != []
    ensures |Context(docs)| == SumLengths(Parts(docs)) + 2 * (|docs| - 1)
  {
    JoinLength(Parts(docs), Separator);
  }

  /** Passage `k` of the block is built from document `k` and sits in the
      `k`-th slot, after the passages of documents `0..k-1` and their
      separators; a blank line follows it unless it is the last. */
  lemma ContextPartAt(docs: seq<Document>, k: nat)
    requires k < |docs|
    ensures Parts(docs)[k] == Part(docs[k])
    ensures Occupies(Context(docs), Offset(Parts(docs), Separator, k), Parts(docs)[k])
    ensures k + 1 < |docs| ==>
      Occupies(Context(docs), Offset(Parts(docs), Separator, k) + |Parts(docs)[k]|, Separator)
  {
    JoinPartAt(Parts(docs), Separator, k);
  }
}
