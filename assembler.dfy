/** `chunk_documents` of src/ingestion/chunker.py: per document, clean the text,
    split it into sentences and pack the sentences' words greedily into chunks of
    at most `chunk_size` words, carrying the last `overlap` words of a flushed
    chunk into the next one and hard-cutting any sentence longer than
    `chunk_size`. The functions below specify the result; the method
    `ChunkDocuments` computes it the way the source does, with its loops and
    its counters. */
module Assembler {
  import opened PyStrings
  import opened Normalizer
  import opened Segmenter

  /** One page of extracted text: the dictionary `{"text", "source", "page"}`. */
  datatype Document = Document(text: string, source: string, page: int)

  /** One emitted chunk: `{"chunk_id", "text", "source", "page"}`. */
  datatype Chunk = Chunk(chunkId: string, text: string, source: string, page: int)

  /** `f"{source}_p{page}_c{index}"`. */
  function ChunkId(source: string, page: int, index: nat): string {
    source + "_p" + IntToString(page) + "_c" + NatToString(index)
  }

  /** The record emitted with sequence number `index` for the words `words` of `doc`. */
  function MakeChunk(doc: Document, index: nat, words: seq<string>): Chunk {
    Chunk(ChunkId(doc.source, doc.page, index), Join(words), doc.source, doc.page)
  }

  /** The records for a document's word chunks, numbered from 0 in emission order. */
  function Label(doc: Document, wordChunks: seq<seq<string>>): seq<Chunk>
    decreases |wordChunks|
  {
    if wordChunks == [] then []
    else
      var n := |wordChunks| - 1;
      Label(doc, wordChunks[..n]) + [MakeChunk(doc, n, wordChunks[n])]
  }

  /** The hard cut of an over-long sentence: `words[i:i + size]` for `i` in
      `range(0, len(words), size)`. */
  function Blocks(words: seq<string>, size: nat): seq<seq<string>>
    requires size > 0
    decreases |words|
  {
    if words == [] then []
    else if |words| <= size then [words]
    else [words[..size]] + Blocks(words[size..], size)
  }

  /** The words carried over after a flush: `chunk_text.split()[-overlap:]` when
      `overlap > 0`, and nothing otherwise. */
  function Seed(chunkText: string, overlap: int): seq<string> {
    if overlap > 0 then
      var ws := Words(chunkText);
      Slice(ws, -overlap, |ws|)
    else []
  }

  /** The per-document state: the pending words `current_chunk` (whose length is
      `current_length`) and the word lists emitted so far (as many as
      `chunk_index`). */
  datatype Assembly = Assembly(pending: seq<string>, emitted: seq<seq<string>>)

  /** One turn of the sentence loop. */
  function Feed(a: Assembly, sentence: string, size: nat, overlap: int): Assembly
    requires size > 0
  {
    var words := Words(sentence);
    if |words| > size then
      Assembly(a.pending, a.emitted + Blocks(words, size))
    else if |a.pending| + |words| > size then
      Assembly(Seed(Join(a.pending), overlap) + words, a.emitted + [a.pending])
    else
      Assembly(a.pending + words, a.emitted)
  }

  /** The sentence loop over `sentences`, from state `a`. */
  function FeedAll(a: Assembly, sentences: seq<string>, size: nat, overlap: int): Assembly
    requires size > 0
    decreases |sentences|
  {
    if sentences == [] then a
    else
      var n := |sentences| - 1;
      Feed(FeedAll(a, sentences[..n], size, overlap), sentences[n], size, overlap)
  }

  /** The word lists emitted for a document's sentences: those the sentence loop
      emits, then the final flush of the pending words, if any. */
  function Assemble(sentences: seq<string>, size: nat, overlap: int): seq<seq<string>>
    requires size > 0
  {
    var a := FeedAll(Assembly([], []), sentences, size, overlap);
    a.emitted + (if a.pending != [] then [a.pending] else [])
  }

  /** The word lists of the chunks emitted for one document's text, in emission
      order. A `chunk_size` below 1 emits nothing (or raises, see `ChunkDocuments`). */
  function DocWordChunks(text: string, size: int, overlap: int): seq<seq<string>> {
    var clean := CleanText(text);
    if clean == [] || size <= 0 then [] else Assemble(SplitSentences(clean), size, overlap)
  }

  /** The chunks emitted for one document. */
  function DocChunks(doc: Document, size: int, overlap: int): seq<Chunk> {
    Label(doc, DocWordChunks(doc.text, size, overlap))
  }

  /** `chunk_documents(documents, chunk_size, overlap)`: each document's chunks,
      in document order. */
  function AllChunks(docs: seq<Document>, size: int, overlap: int): seq<Chunk> {
    if docs == [] then [] else DocChunks(docs[0], size, overlap) + AllChunks(docs[1..], size, overlap)
  }

  lemma LabelSnoc(doc: Document, wordChunks: seq<seq<string>>, words: seq<string>)
    ensures Label(doc, wordChunks + [words])
         == Label(doc, wordChunks) + [MakeChunk(doc, |wordChunks|, words)]
  {
    assert (wordChunks + [words])[..|wordChunks|] == wordChunks;
  }

  /** One turn of the hard-cut loop: the block at `i` is `words[i:i + size]`,
      and the blocks after it start `size` words on. */
  lemma BlocksStep(emitted: seq<seq<string>>, words: seq<string>, i: nat, size: nat)
    requires size > 0 && i < |words|
    ensures emitted + Blocks(words[i..], size)
         == (emitted + [Slice(words, i, i + size)]) + Blocks(words[Min(i + size, |words|)..], size)
  {
    var rest := words[i..];
    if |rest| <= size {
      assert Slice(words, i, i + size) == words[i..|words|] == rest;
      assert words[Min(i + size, |words|)..] == [];
    } else {
      assert rest[..size] == words[i..i + size];
      assert rest[size..] == words[i + size..];
    }
    ConcatAssoc(emitted, [Slice(words, i, i + size)], Blocks(words[Min(i + size, |words|)..], size));
  }

  lemma FeedAllStep(a: Assembly, sentences: seq<string>, s: nat, size: nat, overlap: int)
    requires size > 0 && s < |sentences|
    ensures FeedAll(a, sentences[..s + 1], size, overlap)
         == Feed(FeedAll(a, sentences[..s], size, overlap), sentences[s], size, overlap)
  {
    assert sentences[..s + 1][..s] == sentences[..s];
  }

  lemma AllChunksCons(docs: seq<Document>, d: nat, size: int, overlap: int)
    requires d < |docs|
    ensures AllChunks(docs[d..], size, overlap)
         == DocChunks(docs[d], size, overlap) + AllChunks(docs[d + 1..], size, overlap)
  {
    assert docs[d..][1..] == docs[d + 1..];
  }

  /** The document loop's invariant survives one more document. */
  lemma AllChunksNext(chunks: seq<Chunk>, docs: seq<Document>, d: nat, size: int, overlap: int)
    requires d < |docs|
    requires chunks + AllChunks(docs[d..], size, overlap) == AllChunks(docs, size, overlap)
    ensures (chunks + DocChunks(docs[d], size, overlap)) + AllChunks(docs[d + 1..], size, overlap)
         == AllChunks(docs, size, overlap)
  {
    AllChunksCons(docs, d, size, overlap);
    ConcatAssoc(chunks, DocChunks(docs[d], size, overlap), AllChunks(docs[d + 1..], size, overlap));
  }

  /** `chunks.append({...})` followed by `chunk_index += 1`: the record for
      `words` is appended with sequence number `chunkIndex0`. */
  method Emit(chunks0: seq<Chunk>, doc: Document, chunkIndex0: nat, words: seq<string>,
              ghost prefix: seq<Chunk>, ghost emitted0: seq<seq<string>>)
    returns (chunks: seq<Chunk>, chunkIndex: nat)
    requires chunks0 == prefix + Label(doc, emitted0) && chunkIndex0 == |emitted0|
    ensures chunks == prefix + Label(doc, emitted0 + [words])
    ensures chunkIndex == |emitted0| + 1
  {
    var chunkText := Join(words);
    LabelSnoc(doc, emitted0, words);
    ConcatAssoc(prefix, Label(doc, emitted0), [MakeChunk(doc, |emitted0|, words)]);
    chunks := chunks0 + [Chunk(ChunkId(doc.source, doc.page, chunkIndex0), chunkText, doc.source, doc.page)];
    chunkIndex := chunkIndex0 + 1;
  }

  /** The hard cut of `chunk_documents`: a sentence of more than `chunk_size`
      words is emitted as consecutive blocks of `chunk_size` words (the last one
      shorter), numbered on from `chunkIndex0`. `prefix` and `emitted0` are the
      chunks of earlier documents and the word lists emitted so far for this one. */
  method CutSentence(chunks0: seq<Chunk>, doc: Document, chunkIndex0: nat, words: seq<string>,
                     chunkSize: int, ghost prefix: seq<Chunk>, ghost emitted0: seq<seq<string>>)
    returns (chunks: seq<Chunk>, chunkIndex: nat)
    requires chunkSize > 0
    requires chunks0 == prefix + Label(doc, emitted0) && chunkIndex0 == |emitted0|
    ensures chunks == prefix + Label(doc, emitted0 + Blocks(words, chunkSize))
    ensures chunkIndex == |emitted0 + Blocks(words, chunkSize)|
  {
    chunks, chunkIndex := chunks0, chunkIndex0;
    ghost var emitted := emitted0;
    var sentenceLength := |words|;
    var i := 0;
    while i < sentenceLength
      invariant 0 <= i
      invariant chunks == prefix + Label(doc, emitted)
      invariant chunkIndex == |emitted|
      invariant emitted0 + Blocks(words, chunkSize)
             == emitted + Blocks(words[Min(i, sentenceLength)..], chunkSize)
    {
      var splitWords := Slice(words, i, i + chunkSize);
      BlocksStep(emitted, words, i, chunkSize);
      chunks, chunkIndex := Emit(chunks, doc, chunkIndex, splitWords, prefix, emitted);
      emitted := emitted + [splitWords];
      i := i + chunkSize;
    }
    assert words[Min(i, sentenceLength)..] == [];
    assert emitted + [] == emitted;
  }

  /** What `chunk_documents` ends with: the list of chunks, or the `ValueError`
      that `range(0, n, 0)` raises when `chunk_size` is 0 and a sentence has a
      word. */
  datatype Outcome = Chunks(chunks: seq<Chunk>) | RangeStepZero

  /** The document's text is all whitespace, so `_clean_text` leaves nothing
      of it (`CleanTextEmptyIff`). */
  predicate Blank(doc: Document) {
    forall i :: 0 <= i < |doc.text| ==> IsSpace(doc.text[i])
  }

  lemma BlankIff(doc: Document)
    ensures Blank(doc) <==> CleanText(doc.text) == []
  {
    CleanTextEmptyIff(doc.text);
  }

  /** Some document's text holds more than whitespace. */
  predicate HasText(docs: seq<Document>) {
    exists d :: 0 <= d < |docs| && !Blank(docs[d])
  }

  /** Some sentence has a word. */
  predicate HasWords(sentences: seq<string>) {
    exists k :: 0 <= k < |sentences| && Words(sentences[k]) != []
  }

  /** The sentences of a non-empty cleaned text hold a word between them. */
  lemma SentencesHaveWords(text: string)
    requires CleanText(text) != []
    ensures HasWords(SplitSentences(CleanText(text)))
  {
    var clean := CleanText(text);
    CleanTextShape(text);
    SplitSentencesJoin(clean);
    WordsOfJoin(SplitSentences(clean));
    WordsOfNonSpaceStart(clean);
    WordsOfEachNonEmpty(SplitSentences(clean));
  }

  /** `chunk_documents`, as the source runs it: the documents in order, each one
      appending its chunks to `chunks`. With a positive `chunk_size` the result
      is `AllChunks`; with a negative one every sentence takes the hard-cut
      branch, whose `range` is then empty, so nothing is emitted; with 0 the
      first sentence that has a word raises. */
  method ChunkDocuments(documents: seq<Document>, chunkSize: int, overlap: int)
    returns (r: Outcome)
    ensures r == if chunkSize == 0 && HasText(documents) then RangeStepZero
                 else Chunks(AllChunks(documents, chunkSize, overlap))
  {
    var chunks := [];
    assert documents[0..] == documents;
    for d := 0 to |documents|
      invariant chunks + AllChunks(documents[d..], chunkSize, overlap) == AllChunks(documents, chunkSize, overlap)
      invariant chunkSize == 0 ==> forall e :: 0 <= e < d ==> Blank(documents[e])
    {
      AllChunksNext(chunks, documents, d, chunkSize, overlap);
      var stepZero;
      chunks, stepZero := ChunkDocument(chunks, documents[d], chunkSize, overlap);
      if stepZero {
        assert HasText(documents) by {
          assert !Blank(documents[d]);
        }
        return RangeStepZero;
      }
      if chunkSize == 0 {
        forall e | 0 <= e < d + 1
          ensures Blank(documents[e])
        {
        }
      }
    }
    assert documents[|documents|..] == [];
    assert chunkSize == 0 ==> !HasText(documents);
    return Chunks(chunks);
  }

  /** The body of the document loop of `chunk_documents`: appends the chunks of
      `doc` to `chunks`, or reports that `range` raised. */
  method ChunkDocument(chunksBefore: seq<Chunk>, doc: Document, chunkSize: int, overlap: int)
    returns (chunks: seq<Chunk>, stepZero: bool)
    ensures !stepZero ==> chunks == chunksBefore + DocChunks(doc, chunkSize, overlap)
    ensures stepZero <==> chunkSize == 0 && !Blank(doc)
  {
    var cleanText := CleanText(doc.text);
    BlankIff(doc);
    DocChunksCases(chunksBefore, doc, chunkSize, overlap);
    if cleanText == [] {
      return chunksBefore, false;
    }
    var sentences := SplitSentences(cleanText);
    SentencesHaveWords(doc.text);
    chunks, stepZero := AssembleSentences(chunksBefore, doc, sentences, chunkSize, overlap);
  }

  /** A document adds no chunk when its cleaned text is empty or `chunk_size`
      is below 1, and otherwise the labelled chunks of its sentences. */
  lemma DocChunksCases(chunks: seq<Chunk>, doc: Document, size: int, overlap: int)
    ensures CleanText(doc.text) == [] || size <= 0 ==> chunks + DocChunks(doc, size, overlap) == chunks
    ensures CleanText(doc.text) != [] && size > 0 ==>
      DocChunks(doc, size, overlap) == Label(doc, Assemble(SplitSentences(CleanText(doc.text)), size, overlap))
  {
    assert chunks + [] == chunks;
  }

  /** The sentence loop of `chunk_documents` and the final flush after it. */
  method AssembleSentences(chunksBefore: seq<Chunk>, doc: Document, sentences: seq<string>,
                           chunkSize: int, overlap: int)
    returns (chunks: seq<Chunk>, stepZero: bool)
    ensures chunkSize > 0 ==>
      !stepZero && chunks == chunksBefore + Label(doc, Assemble(sentences, chunkSize, overlap))
    ensures chunkSize <= 0 ==> chunks == chunksBefore
    ensures stepZero <==> chunkSize == 0 && HasWords(sentences)
  {
    chunks := chunksBefore;
    var currentChunk: seq<string> := [];
    var currentLength := 0;
    var chunkIndex := 0;
    ghost var emitted: seq<seq<string>> := [];
    assert sentences[..0] == [];
    assert chunksBefore + [] == chunksBefore;
    for s := 0 to |sentences|
      invariant chunks == chunksBefore + Label(doc, emitted)
      invariant chunkIndex == |emitted|
      invariant currentLength == |currentChunk|
      invariant chunkSize > 0 ==>
        Assembly(currentChunk, emitted) == FeedAll(Assembly([], []), sentences[..s], chunkSize, overlap)
      invariant chunkSize <= 0 ==> emitted == [] && currentChunk == []
      invariant chunkSize == 0 ==> forall k :: 0 <= k < s ==> Words(sentences[k]) == []
    {
      if chunkSize > 0 {
        FeedAllStep(Assembly([], []), sentences, s, chunkSize, overlap);
      }
      var failed;
      chunks, chunkIndex, currentChunk, currentLength, failed, emitted :=
        FeedSentence(chunks, doc, chunkIndex, currentChunk, currentLength, sentences[s],
                     chunkSize, overlap, chunksBefore, emitted);
      if failed {
        assert HasWords(sentences) by {
          assert Words(sentences[s]) != [];
        }
        return chunks, true;
      }
    }
    assert sentences[..|sentences|] == sentences;
    assert chunkSize == 0 ==> !HasWords(sentences);
    stepZero := false;

    if currentChunk != [] {
      chunks, chunkIndex := Emit(chunks, doc, chunkIndex, currentChunk, chunksBefore, emitted);
      emitted := emitted + [currentChunk];
    } else {
      assert emitted + [] == emitted;
    }
  }

  /** One turn of the sentence loop: the sentence is hard-cut, or its words are
      appended to `current_chunk`, after a flush when they do not fit. With a
      positive `chunk_size` this is `Feed`; `prefix` and `emitted0` are as for
      `CutSentence`, and `emitted` is what has been emitted afterwards. */
  method FeedSentence(chunks0: seq<Chunk>, doc: Document, chunkIndex0: nat,
                      currentChunk0: seq<string>, currentLength0: int, sentence: string,
                      chunkSize: int, overlap: int, ghost prefix: seq<Chunk>, ghost emitted0: seq<seq<string>>)
    returns (chunks: seq<Chunk>, chunkIndex: nat, currentChunk: seq<string>, currentLength: int,
             stepZero: bool, ghost emitted: seq<seq<string>>)
    requires chunks0 == prefix + Label(doc, emitted0) && chunkIndex0 == |emitted0|
    requires currentLength0 == |currentChunk0|
    requires chunkSize <= 0 ==> currentChunk0 == []
    ensures chunks == prefix + Label(doc, emitted) && chunkIndex == |emitted|
    ensures currentLength == |currentChunk|
    ensures chunkSize > 0 ==>
      !stepZero && Assembly(currentChunk, emitted)
                   == Feed(Assembly(currentChunk0, emitted0), sentence, chunkSize, overlap)
    ensures chunkSize <= 0 ==> emitted == emitted0 && currentChunk == []
    ensures stepZero <==> chunkSize == 0 && Words(sentence) != []
  {
    chunks, chunkIndex, currentChunk, currentLength := chunks0, chunkIndex0, currentChunk0, currentLength0;
    emitted := emitted0;
    stepZero := false;
    var words := Words(sentence);
    var sentenceLength := |words|;

    if sentenceLength > chunkSize {
      if chunkSize == 0 {
        // `range(0, sentence_length, 0)` raises
        stepZero := true;
      } else if chunkSize > 0 {
        chunks, chunkIndex := CutSentence(chunks, doc, chunkIndex, words, chunkSize, prefix, emitted);
        emitted := emitted + Blocks(words, chunkSize);
      }
      // a negative step leaves `range(0, sentence_length, chunk_size)` empty;
      // either way the loop goes on to the next sentence
      return;
    }

    if currentLength + sentenceLength > chunkSize {
      var chunkText := Join(currentChunk);
      chunks, chunkIndex := Emit(chunks, doc, chunkIndex, currentChunk, prefix, emitted);
      emitted := emitted + [currentChunk];
      if overlap > 0 {
        var overlapWords := Words(chunkText);
        currentChunk := Slice(overlapWords, -overlap, |overlapWords|);
        currentLength := |currentChunk|;
      } else {
        currentChunk := [];
        currentLength := 0;
      }
    }
    currentChunk := currentChunk + words;
    currentLength := currentLength + sentenceLength;
  }
}
