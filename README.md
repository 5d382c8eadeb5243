# Source-attribution context assembler (karuta-rag)

This project models the part of the rule-book question-answering chain that
turns retrieved passages into the context block shown to the language model.
Each passage is labelled with the name of the rule set it comes from:

- `QaChain.DisplayName` maps a document's `source` path to a display name.
  An empty source gets the generic label `公式文書`. Otherwise the path's
  basename is lower-cased and looked up in the static table
  `QaChain.SourceDisplayNames`, which has four rule-set PDFs. A file name that
  is not in the table falls back to itself with every `.pdf` removed.
- `QaChain.FormatContextWithSources` walks the retrieved documents in order.
  It builds one `【name】\n<page content>` passage per document and joins the
  passages with a blank line (`"\n\n"`). It is proved equal to the pure
  specification `QaChain.Context`.

The Python primitives this code relies on are modelled in module `Text`:
- `os.path.basename` in its POSIX form, everything after the last `/`
  (`Text.RFind`, `Text.Basename`);
- `str.lower` on ASCII letters (`Text.Lower`);
- `str.replace(pat, "")`, a left-to-right scan that removes non-overlapping
  occurrences (`Text.RemoveAll`);
- `str.join` (`Text.Join`);
- building one item per element of a list, in order (`Text.Map`).

Removal is checked against an independent reference definition,
`Text.KeepUncovered`: keep exactly the characters that lie inside no
occurrence of the pattern in the input. Joining is pinned down by the offset
at which each part sits in the output.

A document is `QaChain.Document(source, pageContent)`. `source` is `None`
when the metadata has no `source` entry. Like `metadata.get("source", "")`,
`QaChain.SourceOf` reads `None` as the empty string.

Two consequences of the fallback at src/qa_chain.py:33 matter to a reader
of the labels:
- It does not just cut a trailing extension. It removes every `.pdf`
  anywhere in the lower-cased name, in one pass, so `..pdfpdf` becomes
  `.pdf` (`QaChain.SinglePassRemoval`).
- It can be the empty string. Examples are `pdfs/` and `pdfs/.pdf`
  (`QaChain.EmptyDisplayNameExamples`). `QaChain.EmptyDisplayName` states
  exactly when this happens.

## Model

| member | source | states |
|---|---|---|
| `QaChain.SourceDisplayNames` | src/qa_chain.py:20-25 | the four lower-cased PDF file names and their rule names, entry for entry (a constant, no contract) |
| `QaChain.SourceOf` | src/qa_chain.py:40 | `metadata.get("source", "")`: a missing source reads as `""` (defined by cases, no contract; see MissingSourceName) |
| `QaChain.LookupKey` | src/qa_chain.py:32 | `os.path.basename(source).lower()`: the key is no longer than the path and holds no `/` and no ASCII capital |
| `QaChain.DisplayName` | src/qa_chain.py:28-33 | defined by cases, no contract of its own; see EmptySourceName, DirectoryIrrelevant, CaseIrrelevant, KnownFileName, UnknownFileName, EmptyDisplayName |
| `QaChain.Part` | src/qa_chain.py:41 | the f-string `【name】\n<page content>` (no contract; see ContextSingle, ContextPartAt) |
| `QaChain.Context` | src/qa_chain.py:38-42 | the pure specification of the context block, the passages joined by `"\n\n"` (no contract; see ContextEmpty to ContextPartAt and FormatContextWithSources) |
| `Text.RemoveAll` | src/qa_chain.py:33 | `str.replace(pat, "")`: the result is never longer than the input (see RemoveAllDeletesOccurrences, RemoveAllIdentity) |
| `Text.Join` | src/qa_chain.py:42 | `sep.join(parts)` (no contract; see JoinConcat, JoinLength, JoinPartAt) |
| `Text.RFind` | src/qa_chain.py:32 | the result is -1 or an index holding the character, and no later index holds it (the last occurrence) |
| `Text.Basename` | src/qa_chain.py:32 | the result is a suffix of the path with no `/` in it, and it is either the whole path or comes right after a `/` |
| `Text.BasenameUnique` | src/qa_chain.py:32 | any suffix with those three properties is the basename, so they define it |
| `Text.BasenameAfterDirectory` | src/qa_chain.py:32 | putting `dir + "/"` in front of a path does not change its basename |
| `Text.BasenameLower` | src/qa_chain.py:32 | taking the basename and lower-casing can be done in either order |
| `Text.Lower` | src/qa_chain.py:32 | lower-casing keeps the length |
| `Text.LowerIdempotent` | src/qa_chain.py:32 | lower-casing twice is the same as once, and no ASCII capital is left |
| `Text.RemoveAllDeletesOccurrences` | src/qa_chain.py:33 | for a pattern that cannot overlap itself, `replace(pat, "")` deletes exactly the characters inside occurrences of `pat` in the input and keeps every other character in order |
| `Text.RemoveAllIdentity` | src/qa_chain.py:33 | removal leaves the string unchanged if and only if the pattern does not occur in it |
| `Text.KeepUncoveredAll` | src/qa_chain.py:33 | the reference definition drops nothing if and only if no position is covered |
| `Text.KeepUncoveredNone` | src/qa_chain.py:33 | the reference definition drops everything if and only if every position is covered |
| `Text.MapConcat` | src/qa_chain.py:39-41 | building one item per element for `a + b` gives the items for `a` followed by those for `b` |
| `Text.JoinConcat` | src/qa_chain.py:42 | joining two non-empty lists gives the two joins with one separator between them |
| `Text.JoinLength` | src/qa_chain.py:42 | a join is as long as all its parts plus one separator for each gap |
| `Text.JoinPartAt` | src/qa_chain.py:42 | part k appears at its offset in the join (the parts before it and their separators), and a separator follows it unless it is last |
| `QaChain.FormatContextWithSources` | src/qa_chain.py:36-42 | the loop that collects one labelled passage per document, followed by the join, returns exactly `Context(docs)` |
| `QaChain.EmptySourceName` | src/qa_chain.py:30-31 | an empty source gets `公式文書` |
| `QaChain.MissingSourceName` | src/qa_chain.py:40 | a document without a source is labelled and rendered the same as one whose source is empty, with `公式文書` |
| `QaChain.DirectoryIrrelevant` | src/qa_chain.py:32 | for any non-empty path, putting a directory in front does not change the display name |
| `QaChain.CaseIrrelevant` | src/qa_chain.py:32 | paths that are equal after case folding get the same display name |
| `QaChain.KnownFileName` | src/qa_chain.py:32-33 | a path whose lower-cased basename is a table key gets that key's rule name, which is one of the table's values |
| `QaChain.UpperCaseFileName` | src/qa_chain.py:20-33 | `pdfs/KYOUGI_KITEI.PDF` is labelled `競技規定` |
| `QaChain.UnknownFileName` | src/qa_chain.py:33 | a non-empty path whose key is not in the table gets its lower-cased basename with the characters inside `.pdf` occurrences deleted; this equals the key if and only if `.pdf` does not occur in it |
| `QaChain.EmptyDisplayName` | src/qa_chain.py:28-33 | the display name is empty if and only if the path is non-empty, its key is not in the table, and every character of the key lies inside a `.pdf` occurrence |
| `QaChain.EmptyDisplayNameExamples` | src/qa_chain.py:33 | `pdfs/` and `pdfs/.pdf` both get the empty display name |
| `QaChain.SinglePassRemoval` | src/qa_chain.py:33 | `..pdfpdf` is labelled `.pdf`: removal is a single pass and can leave a new `.pdf` |
| `QaChain.ContextEmpty` | src/qa_chain.py:38-42 | no documents give the empty context |
| `QaChain.ContextSingle` | src/qa_chain.py:41-42 | one document gives exactly `【name】\n` followed by its content, with no separator |
| `QaChain.ContextConcat` | src/qa_chain.py:39-42 | the context of `a + b` (both non-empty) is the context of `a`, a blank line, then the context of `b` |
| `QaChain.ContextCons` | src/qa_chain.py:39-42 | the first (most relevant) document's passage comes first, followed by a blank line and the rest |
| `QaChain.ContextLength` | src/qa_chain.py:42 | the context is as long as all passages plus two characters for each gap |
| `QaChain.ContextPartAt` | src/qa_chain.py:39-42 | passage k is built from document k and sits in the k-th slot, after the earlier passages and their separators, with a blank line after it unless it is last |

## Left out

- `get_qa_chain` and `answer_query` (src/qa_chain.py:45-109): they load the FAISS index, call OpenAI embeddings and chat completion, and compose LangChain runnables. These are foreign calls and network policy (timeout, retries), so they are not modelled.
- The command-line entry point (src/qa_chain.py:111-117): argument handling and printing are I/O.
- app.py, src/logger.py, src/loader.py, src/indexer.py, src/config.py, src/utils.py and gunicorn.conf.py are not part of this model. They are web routes, messaging webhooks, database logging, PDF extraction, the LangChain text splitter, index building and process configuration, all I/O or foreign libraries.
- `Text.Lower` folds only ASCII `A`-`Z`. Python's `str.lower` also folds other letters, some into longer strings, and folds the Kelvin sign `K` to `k`, which can make a non-ASCII name match a table key. The model does not capture this.
- `Text.Basename` follows POSIX `os.path.basename`. The Windows form, which also splits on `\` and drive letters, is not modelled.
- `QaChain.SourceOf`: a `source` entry holding a non-string value other than `None` is not modelled. Every value is either absent or a string.
