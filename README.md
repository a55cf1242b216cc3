# Chunking engine of the PDF ingestion pipeline, in Dafny

The ingestion pipeline turns the text extracted from PDF pages into chunks
for embedding and retrieval. This project models its chunking engine, and
nothing around it.

- `_clean_text`: collapses every whitespace run to one space, drops the
  space in front of `? . ! ,` and strips both ends.
- `_split_into_sentences`: splits the cleaned text after `.`, `!` or `?`
  followed by whitespace.
- `chunk_documents`: packs each page's sentences greedily into chunks of
  `chunk_size` words. It carries the last `overlap` words of a flushed chunk
  into the next one. It hard-cuts any sentence longer than `chunk_size` into
  blocks. Each chunk is labelled `source_p{page}_c{k}`.
- `chunk_text`: the character-window chunker of `ingestor.py`.

Modules, one per concern:

- `PyStrings` (`strings.dfy`) models the Python string behaviour the
  chunkers rely on. This covers Python's whitespace table (shared by `\s`,
  `str.split()` and `str.strip()`), `split()`, `" ".join`, `strip()`,
  slicing with clamping and negative indices, and `str()` of an integer.
- `Normalizer` (`normalize.dfy`) models `_clean_text`.
- `Segmenter` (`sentences.dfy`) models `_split_into_sentences`.
- `Assembler` (`assembler.dfy`) models `chunk_documents`. The functions
  `Feed`, `FeedAll`, `Assemble`, `DocChunks` and `AllChunks` specify its
  result. The method `ChunkDocuments` runs the source's loops and counters
  and is proved to return that result. Its loop bodies are the helper
  methods `ChunkDocument`, `AssembleSentences`, `FeedSentence`,
  `CutSentence` and `Emit`.
- `ChunkProperties` (`chunk_props.dfy`) holds what is proved about
  `chunk_documents`: the hard cut, the reseed, chunk sizes, word
  conservation, record ids and document order.
- `Ingestor` (`ingestor.dfy`) models `chunk_text` as a function and as the
  source's `while` loop, with the window properties.

Nothing in the code rejects `chunk_size <= 0` or `overlap >= chunk_size`;
the model follows the code:

- A `chunk_size` of 0 makes `range(0, n, 0)` raise `ValueError` at the first
  sentence that has a word. This is `Outcome.RangeStepZero`.
- A negative `chunk_size` sends every sentence down the hard-cut branch,
  whose `range` is then empty, so nothing is emitted.
- In `chunk_text`, `overlap >= chunk_size` on a non-empty text never ends.

Two behaviours of the code are proved as they are:

- A chunk can hold up to `chunk_size + overlap` words. After a reseed, the
  next sentence is appended without checking the budget again
  (`OversizeExample`).
- The blocks of a hard-cut sentence are emitted before the words still
  pending from earlier sentences (`EmissionOrderExample`).

Neither is treated as a bug, because the code documents `chunk_size` as an
approximate word count.

## Model

| member | source | states |
|---|---|---|
| PyStrings.Strip | src/ingestion/chunker.py:16 | defines `s.strip()` as `rstrip` after `lstrip`; its contracts are those of `TrimStart` and `TrimEnd` and the lemmas below |
| PyStrings.TrimStartAppend | src/ingestion/chunker.py:16 | `lstrip` of a text ending in a non-whitespace character, followed by anything, strips only that text |
| PyStrings.TrimEndPrepend | src/ingestion/chunker.py:16 | `rstrip` of anything followed by a text starting with a non-whitespace character strips only that text |
| PyStrings.StripAroundSpace | src/ingestion/chunker.py:16 | `strip()` keeps a single space between a text ending in a word and a text starting with one, and strips the two sides independently |
| PyStrings.Words | src/ingestion/chunker.py:70 | `sentence.split()` yields non-empty, whitespace-free words |
| PyStrings.WordsTrimStart | src/ingestion/chunker.py:70 | leading whitespace does not change what `split()` yields |
| PyStrings.WordsConsNonSpace | src/ingestion/chunker.py:70 | a non-whitespace character put in front of a text starts a new word when the text is empty or starts with whitespace, and joins the text's first word otherwise |
| PyStrings.Join | src/ingestion/chunker.py:77 | defines `" ".join(xs)`; what `split()` makes of it is stated by `WordsOfJoin` and `WordsJoinRoundTrip` |
| PyStrings.WordsOfJoin | src/ingestion/chunker.py:63-71 | splitting space-joined sentences gives each sentence's words, in order |
| PyStrings.WordsJoinRoundTrip | src/ingestion/chunker.py:107 | `" ".join(ws).split() == ws` whenever every element is a word, so `chunk_text.split()` gives back the flushed words |
| PyStrings.SliceLast | src/ingestion/chunker.py:107 | `xs[-k:]` for `k > 0` is the last `min(k, len(xs))` elements |
| PyStrings.Slice | src/ingestion/chunker.py:76 | defines `xs[i:j]` with Python's negative indices and clamping to the list; `SliceLast` and the window lemmas state its results |
| PyStrings.NatToStringInjective | src/ingestion/chunker.py:81 | distinct chunk numbers print as distinct decimal strings |
| PyStrings.IntToString | src/ingestion/chunker.py:81 | defines `str()` of an integer, with a `-` sign for negative pages; `NatToStringInjective` states that distinct counters print differently |
| PyStrings.TrimStartDropsSpace | src/ingestion/chunker.py:16 | `lstrip` removes only whitespace and keeps every other character |
| PyStrings.TrimEndDropsSpace | src/ingestion/chunker.py:16 | `rstrip` removes only whitespace and keeps every other character |
| Normalizer.CollapseWhitespace | src/ingestion/chunker.py:11 | every whitespace character left is a plain space with no whitespace beside it; the non-whitespace characters are kept in order; the result is empty exactly when the input is, starts with whitespace exactly when the input does, and otherwise starts with the input's first character |
| Normalizer.CollapseKeepsWords | src/ingestion/chunker.py:11 | collapsing keeps every word boundary: the result splits into exactly the words of the input |
| Normalizer.CollapseAppend | src/ingestion/chunker.py:11 | after a non-whitespace character the rest of the text is collapsed on its own: `sub(a + x) == sub(a) + sub(x)` |
| Normalizer.CollapseSpaceRun | src/ingestion/chunker.py:11 | a whitespace run in front of a word becomes exactly one space |
| Normalizer.CollapseEndsNonSpace | src/ingestion/chunker.py:11 | collapsing keeps a final non-whitespace character last |
| Normalizer.CollapseFixedPoint | src/ingestion/chunker.py:11 | the substitution changes nothing in a text whose whitespace is already single plain spaces |
| Normalizer.DropSpaceBeforePunct | src/ingestion/chunker.py:14 | removing the space before `? . ! ,` keeps the non-whitespace characters in order and keeps a non-whitespace first character |
| Normalizer.DropAppend | src/ingestion/chunker.py:14 | after a non-whitespace character the rest of the text is rewritten on its own: `sub(a + x) == sub(a) + sub(x)` |
| Normalizer.DropKeepsSpace | src/ingestion/chunker.py:14 | a space after a word that is not followed by `? . ! ,` is kept |
| Normalizer.DropSpaceBeforeMark | src/ingestion/chunker.py:14 | a whitespace character after a word that is followed by one of `? . ! ,` is removed, and only it |
| Normalizer.DropEndsNonSpace | src/ingestion/chunker.py:14 | the substitution keeps a final non-whitespace character last |
| Normalizer.DropSpaceBeforePunctShape | src/ingestion/chunker.py:14 | on collapsed text, the second substitution leaves no whitespace before `? . ! ,` and keeps spaces plain and single |
| Normalizer.DropFixedPoint | src/ingestion/chunker.py:14 | the substitution changes nothing when no whitespace precedes `? . ! ,` |
| Normalizer.StripShape | src/ingestion/chunker.py:16 | `strip()` leaves no whitespace at either end, keeps every shape property of what it keeps, and keeps all non-whitespace characters |
| Normalizer.CleanText | src/ingestion/chunker.py:5-16 | defines `_clean_text` as the two substitutions followed by `strip()`; the lemmas below state what it does |
| Normalizer.CleanTextShape | src/ingestion/chunker.py:5-16 | the cleaned text is normalized and holds the input's non-whitespace characters in order |
| Normalizer.CleanTextAroundSpace | src/ingestion/chunker.py:5-16 | a whitespace run between a word and a next word that does not start with `? . ! ,` becomes exactly one space, and the two sides are cleaned independently |
| Normalizer.CollapseAroundSpace | src/ingestion/chunker.py:11 | the first substitution turns a whitespace run between a word and a next word into one space and collapses the two sides independently |
| Normalizer.DropStripAroundSpace | src/ingestion/chunker.py:14-16 | the second substitution and `strip()` keep a single space between a word and a next word that does not start with `? . ! ,`, and treat the two sides independently |
| Normalizer.CleanTextEmptyIff | src/ingestion/chunker.py:5-16 | the cleaned text is empty exactly when the input is all whitespace |
| Normalizer.CleanTextFixedPoint | src/ingestion/chunker.py:5-16 | cleaning a normalized text returns it unchanged |
| Normalizer.CleanTextIdempotent | src/ingestion/chunker.py:5-16 | cleaning twice is cleaning once |
| Segmenter.SplitSentences | src/ingestion/chunker.py:19-25 | the split returns at least one piece |
| Segmenter.SplitFrom | src/ingestion/chunker.py:24-25 | defines the scan behind `re.split`: the piece being built grows by one character, or ends after `.`, `!` or `?` followed by a whitespace run, which is dropped; it returns at least one piece |
| Segmenter.SplitSentencesJoin | src/ingestion/chunker.py:19-25 | on cleaned text, joining the sentences with single spaces gives the text back, so no character is lost |
| Segmenter.SplitSentencesEnds | src/ingestion/chunker.py:24-25 | every sentence but the last ends in `.`, `!` or `?` |
| Segmenter.SplitSentencesNoBoundaryInside | src/ingestion/chunker.py:24-25 | no sentence holds whitespace right after `.`, `!` or `?`: every such place was split |
| Assembler.ChunkId | src/ingestion/chunker.py:81 | defines the id `f"{source}_p{page}_c{chunk_index}"`; `ChunkIdInjective` states that it determines the index |
| Assembler.MakeChunk | src/ingestion/chunker.py:79-86 | defines the record appended for a word list: the id, the words joined by spaces, the source and the page |
| Assembler.Label | src/ingestion/chunker.py:79-128 | defines the records of a page's word chunks, numbered from 0 in emission order; `LabelShape` states it record by record |
| Assembler.Blocks | src/ingestion/chunker.py:75-76 | defines the hard cut `words[i:i + chunk_size]` for `i` in `range(0, len(words), chunk_size)`; the `Blocks…` lemmas state its count, contents and sizes |
| Assembler.Seed | src/ingestion/chunker.py:105-112 | defines the words carried into the next chunk: `chunk_text.split()[-overlap:]` when `overlap > 0`, none otherwise; `SeedOfFlushed` states which words these are |
| Assembler.Feed | src/ingestion/chunker.py:69-116 | defines one turn of the sentence loop on the pending words and emitted chunks: hard cut, flush and reseed, or plain append; `FeedHardCut`, `FeedFlush` and `FeedContents` state what it does |
| Assembler.FeedAll | src/ingestion/chunker.py:69-116 | defines the sentence loop as `Feed` applied to each sentence in order |
| Assembler.Assemble | src/ingestion/chunker.py:65-128 | defines a page's word chunks: the sentence loop from an empty chunk, then the final flush when words are pending; `AssembleGood` and `AssembleConserves` state its properties |
| Assembler.DocWordChunks | src/ingestion/chunker.py:58-128 | defines a page's word chunks: none when the cleaned text is empty or `chunk_size <= 0`, otherwise `Assemble` of its sentences |
| Assembler.DocChunks | src/ingestion/chunker.py:58-128 | defines a page's records as `Label` of its word chunks |
| Assembler.AllChunks | src/ingestion/chunker.py:52-130 | defines the result of `chunk_documents`: each page's records, in page order; `ChunkDocuments` is proved to return it |
| Assembler.Emit | src/ingestion/chunker.py:94-103 | appending a record numbered `chunk_index` and incrementing the counter extends the labelled output by one chunk |
| Assembler.BlocksStep | src/ingestion/chunker.py:75-76 | one turn of the hard-cut loop emits `words[i:i + chunk_size]` and leaves the blocks of the words after it |
| Assembler.CutSentence | src/ingestion/chunker.py:74-88 | the hard-cut loop emits the sentence's blocks, numbered on from the current counter |
| Assembler.FeedSentence | src/ingestion/chunker.py:69-116 | one turn of the sentence loop is one step of `Feed`; with `chunk_size` 0 a sentence that has a word raises; with a negative size nothing changes |
| Assembler.AssembleSentences | src/ingestion/chunker.py:65-128 | the sentence loop and final flush emit the labelled chunks of `Assemble`; with `chunk_size` 0 they raise exactly when some sentence has a word |
| Assembler.SentencesHaveWords | src/ingestion/chunker.py:58-71 | the sentences of a non-empty cleaned text contain a word between them |
| Assembler.BlankIff | src/ingestion/chunker.py:58-61 | a page is skipped (cleaned text empty) exactly when its text is all whitespace |
| Assembler.DocChunksCases | src/ingestion/chunker.py:58-63 | a page with empty cleaned text or a non-positive `chunk_size` adds nothing; otherwise it adds its sentences' labelled chunks |
| Assembler.ChunkDocument | src/ingestion/chunker.py:54-128 | one turn of the document loop appends the page's chunks, or raises exactly when `chunk_size` is 0 and the page has text |
| Assembler.ChunkDocuments | src/ingestion/chunker.py:28-130 | `chunk_documents` returns `AllChunks`, or the `ValueError` of `range` exactly when `chunk_size` is 0 and some page has text |
| ChunkProperties.BlocksCount | src/ingestion/chunker.py:75 | a hard cut emits ceil(n / chunk_size) blocks, none for no words |
| ChunkProperties.BlocksHead | src/ingestion/chunker.py:75-76 | the first block is `words[:chunk_size]`, full when more follow, and the rest are the blocks of `words[chunk_size:]` |
| ChunkProperties.BlocksSkip | src/ingestion/chunker.py:75-76 | the blocks from block `k` on are the blocks of `words[k * chunk_size:]` |
| ChunkProperties.BlocksAt | src/ingestion/chunker.py:75-76 | block `k` is `words[k * chunk_size:k * chunk_size + chunk_size]` |
| ChunkProperties.BlocksFlatten | src/ingestion/chunker.py:74-88 | the blocks, read in order, are exactly the sentence's words |
| ChunkProperties.BlocksSizes | src/ingestion/chunker.py:75-76 | every block holds 1 to `chunk_size` words, all but the last exactly `chunk_size` |
| ChunkProperties.FeedHardCut | src/ingestion/chunker.py:73-88 | a hard cut leaves `current_chunk` untouched and appends blocks holding the sentence's words |
| ChunkProperties.SeedOfFlushed | src/ingestion/chunker.py:105-112 | after a flush, the carried words are the last `min(overlap, n)` of the `n` flushed words, and none with `overlap <= 0` |
| ChunkProperties.FeedFlush | src/ingestion/chunker.py:90-116 | a flush happens only with words pending, emits exactly them, and the next `current_chunk` is the carried tail plus the new sentence |
| ChunkProperties.FeedWellFormed | src/ingestion/chunker.py:69-116 | every turn keeps all emitted chunks non-empty lists of words of at most `chunk_size + max(overlap, 0)` |
| ChunkProperties.FeedAllWellFormed | src/ingestion/chunker.py:69-116 | the whole sentence loop keeps that invariant |
| ChunkProperties.AssembleGood | src/ingestion/chunker.py:65-128 | every chunk of a page holds between 1 and `chunk_size + max(overlap, 0)` words |
| ChunkProperties.HardCutContents | src/ingestion/chunker.py:73-88 | a hard cut adds the sentence's words, in order, to what was emitted |
| ChunkProperties.FlushContents | src/ingestion/chunker.py:90-116 | a flush adds the carried words a second time, then the sentence's words |
| ChunkProperties.FeedContents | src/ingestion/chunker.py:69-116 | one turn adds every word of the sentence, and at most those plus the words a reseed carries over; with `overlap <= 0` exactly the sentence's words, and in order when it is not hard-cut |
| ChunkProperties.FeedAllContents | src/ingestion/chunker.py:69-116 | the sentence loop loses no word; with `overlap <= 0` it keeps each exactly once; with no hard cut it also keeps them in order |
| ChunkProperties.AssembleConserves | src/ingestion/chunker.py:65-128 | a page's chunks hold every word of its sentences, exactly once with `overlap <= 0`, and in text order when also no sentence is hard-cut |
| ChunkProperties.DocConserves | src/ingestion/chunker.py:58-128 | the same, stated against the words of the cleaned page text |
| ChunkProperties.DocChunksEmptyIff | src/ingestion/chunker.py:58-61 | a page yields no chunk exactly when its cleaned text is empty, that is, when it is all whitespace |
| ChunkProperties.LabelShape | src/ingestion/chunker.py:79-128 | record `k` of a page has number `k`, the page's source and page, and the `k`-th word list joined by spaces |
| ChunkProperties.ChunkIdInjective | src/ingestion/chunker.py:81 | `source_p{page}_c{k}` determines `k` |
| ChunkProperties.DocChunksShape | src/ingestion/chunker.py:54-128 | the ids of a page run `c0, c1, …` on every path and are pairwise distinct; source and page are copied; each text splits back into its word list of 1 to `chunk_size + max(overlap, 0)` words |
| ChunkProperties.AllChunksAppend | src/ingestion/chunker.py:54 | the chunks of two lists of pages are the chunks of each, concatenated |
| ChunkProperties.AllChunksOrder | src/ingestion/chunker.py:52-61 | a page's chunks come after those of earlier pages and before those of later ones |
| ChunkProperties.AllChunksNonPositive | src/ingestion/chunker.py:74-75 | with `chunk_size <= 0` no page adds a chunk |
| ChunkProperties.OversizeExample | src/ingestion/chunker.py:105-116 | with `chunk_size` 2 and `overlap` 1, two two-word sentences give a second chunk of three words |
| ChunkProperties.EmissionOrderExample | src/ingestion/chunker.py:73-88 | with `chunk_size` 2, a one-word sentence followed by a three-word one is emitted after the long sentence's two blocks |
| Ingestor.WindowsFrom | src/ingestion/ingestor.py:67-70 | defines the windows made from offset `start`: `text[start:start + chunk_size]`, then the windows from `start + step`, until `start` reaches the end |
| Ingestor.Windows | src/ingestion/ingestor.py:64-71 | defines the result of `chunk_text`: the windows from offset 0 with step `chunk_size - overlap`; none for the empty text |
| Ingestor.ChunkText | src/ingestion/ingestor.py:64-71 | the `while` loop returns exactly the windows `Windows` describes |
| Ingestor.WindowsFromCount | src/ingestion/ingestor.py:66-70 | from a start offset, the loop makes ceil(remaining / step) windows |
| Ingestor.WindowsCount | src/ingestion/ingestor.py:64-71 | `chunk_text` returns ceil(len(text) / (chunk_size - overlap)) windows, none for the empty text |
| Ingestor.WindowStartIsProduct | src/ingestion/ingestor.py:70 | the `i`-th window starts at `i * (chunk_size - overlap)` |
| Ingestor.WindowAt | src/ingestion/ingestor.py:68-70 | window `i` is `text[start_i:start_i + chunk_size]` with `start_i` inside the text |
| Ingestor.WindowSize | src/ingestion/ingestor.py:68-69 | with `chunk_size > 0` every window holds 1 to `chunk_size` characters |
| Ingestor.Coverage | src/ingestion/ingestor.py:64-71 | with `0 <= overlap < chunk_size` every character lies in some window, at the offset its position dictates |
| Ingestor.ConsecutiveOverlap | src/ingestion/ingestor.py:68-70 | what window `i` holds past its first `chunk_size - overlap` characters begins window `i + 1`; that shared part has `overlap` characters, or fewer where the text ends |

## Left out

- The rest of `ingestor.py` (PDF text extraction, embeddings, the vector store) is left out. So are `pdf_loader.py`, `run_ingestion.py` and the desktop UI. They are I/O and calls into third-party services.
- Documents are modelled as records with `text`, `source` and `page`. A dictionary missing a key, which raises `KeyError`, is not modelled. A `page` that is not an integer is not modelled either, because the model formats pages with `str()` of an integer.
- The regular-expression engine is not modelled. The two substitutions and the split are written as left-to-right character scans with the same matching rule.
- Ingestor.ChunkText: requires `overlap < chunk_size` when the text is not empty. Otherwise `start` never moves forward and the source loops forever.
- Ingestor.WindowSize, Ingestor.Coverage and Ingestor.ConsecutiveOverlap assume `chunk_size > 0` (and the last two `overlap >= 0`). `WindowsCount` and `WindowAt` need only `overlap < chunk_size`, so they cover non-positive sizes too, with each window the Python slice `text[start:start + chunk_size]`, whose end may then be negative.
- ChunkProperties.AssembleConserves: with `overlap > 0` it states only that no word is lost (multiset inclusion). It does not state which carried words repeat; `FlushContents` states that per flush.
- ChunkProperties.FeedAllContents: the same weakening for `overlap > 0`.
- ChunkProperties.DocConserves: the same weakening for `overlap > 0`.
- Assembler.ChunkDocuments: when `range` raises, the chunks already appended are lost with the exception. The model returns `RangeStepZero` and nothing else.
