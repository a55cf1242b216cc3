/** What `chunk_documents` promises about its output: the shape of the hard
    cut, the words carried over after a flush, the size of every chunk, that no
    word of the cleaned text is lost, and the numbering and labelling of the
    records. All of it is proved about the functions of `Assembler`, which the
    method `Assembler.ChunkDocuments` is proved to compute. */
module ChunkProperties {
  import opened PyStrings
  import opened Normalizer
  import opened Segmenter
  import opened Assembler

  // ---------------------------------------------------------------------------
  // The hard cut

  /** `range(0, L, size)` visits ceil(L / size) starts: as many blocks as
      needed to hold the `L` words, and not one more. */
  lemma {:induction false} BlocksCount(words: seq<string>, size: nat)
    requires size > 0
    ensures |Blocks(words, size)| * size >= |words|
    ensures words != [] ==> (|Blocks(words, size)| - 1) * size < |words|
    ensures words == [] <==> Blocks(words, size) == []
    decreases |words|
  {
    if |words| > size {
      var rest := words[size..];
      BlocksCount(rest, size);
      var n := |Blocks(rest, size)|;
      assert |Blocks(words, size)| == n + 1;
      assert (n + 1) * size == n * size + size;
      assert n * size == (n - 1) * size + size;
    }
  }

  /** The first block is `words[:size]`; it is full when more blocks follow,
      and those are the blocks of `words[size:]`. */
  lemma BlocksHead(words: seq<string>, size: nat)
    requires size > 0 && Blocks(words, size) != []
    ensures words != []
    ensures Blocks(words, size)[0] == Slice(words, 0, size)
    ensures 0 < |Blocks(words, size)[0]| <= size
    ensures |Blocks(words, size)| > 1 ==>
      |words| > size && |Blocks(words, size)[0]| == size && Blocks(words, size)[1..] == Blocks(words[size..], size)
  {
  }

  /** The blocks from block `k` on are the blocks of what is left after `k`
      blocks' worth of words. */
  lemma {:induction false} BlocksSkip(words: seq<string>, size: nat, k: nat)
    requires size > 0 && k < |Blocks(words, size)|
    ensures 0 <= k * size < |words|
    ensures Blocks(words, size)[k..] == Blocks(words[k * size..], size)
    decreases k
  {
    if k > 0 {
      BlocksHead(words, size);
      var rest := words[size..];
      var j := k - 1;
      BlocksSkip(rest, size, j);
      MulStep(j, size);
      assert rest[j * size..] == words[k * size..];
      assert Blocks(words, size)[k..] == Blocks(words, size)[1..][j..];
    }
  }

  lemma MulStep(j: nat, size: nat)
    ensures j * size + size == (j + 1) * size
  {
  }

  /** Block `k` is `words[k * size:k * size + size]`. */
  lemma BlocksAt(words: seq<string>, size: nat, k: nat)
    requires size > 0 && k < |Blocks(words, size)|
    ensures k * size < |words|
    ensures Blocks(words, size)[k] == Slice(words, k * size, k * size + size)
  {
    BlocksSkip(words, size, k);
    var off := k * size;
    var rest := words[off..];
    assert Blocks(words, size)[k] == Blocks(rest, size)[0];
    BlocksHead(rest, size);
    SliceShift(words, off, 0, size);
    assert 0 + off == off && size + off == off + size;
  }

  /** The blocks, read in order, are the sentence's words. */
  lemma {:induction false} BlocksFlatten(words: seq<string>, size: nat)
    requires size > 0
    ensures Flatten(Blocks(words, size)) == words
    decreases |words|
  {
    if words == [] {
    } else if |words| <= size {
      assert Flatten([words]) == words + Flatten([words][1..]);
      assert [words][1..] == [];
    } else {
      var tail := Blocks(words[size..], size);
      BlocksFlatten(words[size..], size);
      assert ([words[..size]] + tail)[1..] == tail;
      assert words == words[..size] + words[size..];
    }
  }

  /** Every block holds between 1 and `size` words, and all but the last hold
      exactly `size`. */
  lemma BlocksSizes(words: seq<string>, size: nat, k: nat)
    requires size > 0 && k < |Blocks(words, size)|
    ensures 0 < |Blocks(words, size)[k]| <= size
    ensures k < |Blocks(words, size)| - 1 ==> |Blocks(words, size)[k]| == size
  {
    BlocksSkip(words, size, k);
    BlocksHead(words[k * size..], size);
  }

  /** The hard cut leaves `current_chunk` (and so `current_length`) alone and
      emits, after what was already emitted, blocks that hold the sentence's
      words in order. */
  lemma FeedHardCut(a: Assembly, sentence: string, size: nat, overlap: int)
    requires size > 0 && |Words(sentence)| > size
    ensures Feed(a, sentence, size, overlap).pending == a.pending
    ensures |Feed(a, sentence, size, overlap).emitted| >= |a.emitted|
    ensures Feed(a, sentence, size, overlap).emitted[..|a.emitted|] == a.emitted
    ensures Flatten(Feed(a, sentence, size, overlap).emitted[|a.emitted|..]) == Words(sentence)
  {
    var bs := Blocks(Words(sentence), size);
    var e := a.emitted + bs;
    assert e[..|a.emitted|] == a.emitted;
    assert e[|a.emitted|..] == bs;
    BlocksFlatten(Words(sentence), size);
  }

  // ---------------------------------------------------------------------------
  // Flush and reseed

  /** After a flush, `chunk_text.split()[-overlap:]` gives back the last
      `min(overlap, n)` of the `n` flushed words: joining words with spaces and
      splitting them again loses nothing. With `overlap <= 0` nothing is carried. */
  lemma SeedOfFlushed(pending: seq<string>, overlap: int)
    requires AllWords(pending)
    ensures Seed(Join(pending), overlap)
         == if overlap > 0 then pending[|pending| - Min(overlap, |pending|)..] else []
  {
    WordsJoinRoundTrip(pending);
    if overlap > 0 {
      SliceLast(pending, overlap);
    }
  }

  /** A normal flush happens only with words pending; it emits exactly those
      words, and the next `current_chunk` is the carried-over tail followed by
      the new sentence's words. */
  lemma FeedFlush(a: Assembly, sentence: string, size: nat, overlap: int)
    requires size > 0 && AllWords(a.pending)
    requires |Words(sentence)| <= size < |a.pending| + |Words(sentence)|
    ensures a.pending != []
    ensures Feed(a, sentence, size, overlap).emitted == a.emitted + [a.pending]
    ensures Feed(a, sentence, size, overlap).pending
         == (if overlap > 0 then a.pending[|a.pending| - Min(overlap, |a.pending|)..] else [])
            + Words(sentence)
  {
    SeedOfFlushed(a.pending, overlap);
  }

  // ---------------------------------------------------------------------------
  // Chunk sizes

  /** The most words a chunk can hold: `chunk_size`, plus the up to `overlap`
      words carried over from the chunk before. */
  function Cap(size: nat, overlap: int): nat {
    size + Max(overlap, 0)
  }

  /** A chunk's word list: non-empty, made of words, and within the cap. */
  predicate GoodChunk(ws: seq<string>, cap: nat) {
    ws != [] && AllWords(ws) && |ws| <= cap
  }

  /** What holds of the sentence loop's state between sentences. */
  predicate WellFormed(a: Assembly, cap: nat) {
    AllWords(a.pending) && |a.pending| <= cap
    && forall k :: 0 <= k < |a.emitted| ==> GoodChunk(a.emitted[k], cap)
  }

  lemma BlocksGood(words: seq<string>, size: nat, cap: nat)
    requires size > 0 && size <= cap && AllWords(words)
    ensures forall k :: 0 <= k < |Blocks(words, size)| ==> GoodChunk(Blocks(words, size)[k], cap)
  {
    forall k | 0 <= k < |Blocks(words, size)|
      ensures GoodChunk(Blocks(words, size)[k], cap)
    {
      BlocksSizes(words, size, k);
      BlocksAt(words, size, k);
    }
  }

  lemma FeedWellFormed(a: Assembly, sentence: string, size: nat, overlap: int)
    requires size > 0 && WellFormed(a, Cap(size, overlap))
    ensures WellFormed(Feed(a, sentence, size, overlap), Cap(size, overlap))
  {
    var words := Words(sentence);
    if |words| > size {
      HardCutWellFormed(a, sentence, size, overlap);
    } else if |a.pending| + |words| > size {
      FlushWellFormed(a, sentence, size, overlap);
    } else {
      AllWordsAppend(a.pending, words);
    }
  }

  lemma HardCutWellFormed(a: Assembly, sentence: string, size: nat, overlap: int)
    requires size > 0 && WellFormed(a, Cap(size, overlap)) && |Words(sentence)| > size
    ensures WellFormed(Feed(a, sentence, size, overlap), Cap(size, overlap))
  {
    var cap := Cap(size, overlap);
    var bs := Blocks(Words(sentence), size);
    BlocksGood(Words(sentence), size, cap);
    var e := a.emitted + bs;
    assert forall k :: 0 <= k < |e| ==> e[k] == if k < |a.emitted| then a.emitted[k] else bs[k - |a.emitted|];
  }

  lemma FlushWellFormed(a: Assembly, sentence: string, size: nat, overlap: int)
    requires size > 0 && WellFormed(a, Cap(size, overlap))
    requires |Words(sentence)| <= size < |a.pending| + |Words(sentence)|
    ensures WellFormed(Feed(a, sentence, size, overlap), Cap(size, overlap))
  {
    var cap := Cap(size, overlap);
    FeedFlush(a, sentence, size, overlap);
    var next := Feed(a, sentence, size, overlap);
    var carried := if overlap > 0 then a.pending[|a.pending| - Min(overlap, |a.pending|)..] else [];
    assert AllWords(carried);
    AllWordsAppend(carried, Words(sentence));
    var e := a.emitted + [a.pending];
    assert forall k :: 0 <= k < |e| ==> e[k] == if k < |a.emitted| then a.emitted[k] else a.pending;
  }

  lemma {:induction false} FeedAllWellFormed(sentences: seq<string>, size: nat, overlap: int)
    requires size > 0
    ensures WellFormed(FeedAll(Assembly([], []), sentences, size, overlap), Cap(size, overlap))
    decreases |sentences|
  {
    if sentences != [] {
      var n := |sentences| - 1;
      FeedAllWellFormed(sentences[..n], size, overlap);
      FeedWellFormed(FeedAll(Assembly([], []), sentences[..n], size, overlap), sentences[n], size, overlap);
    }
  }

  /** Every chunk emitted for a run of sentences is a non-empty list of words of
      at most `chunk_size + max(overlap, 0)` words; with `overlap <= 0`, of at
      most `chunk_size`. */
  lemma AssembleGood(sentences: seq<string>, size: nat, overlap: int)
    requires size > 0
    ensures forall k :: 0 <= k < |Assemble(sentences, size, overlap)| ==>
      GoodChunk(Assemble(sentences, size, overlap)[k], Cap(size, overlap))
  {
    FeedAllWellFormed(sentences, size, overlap);
  }

  // ---------------------------------------------------------------------------
  // No word is lost

  /** What the sentence loop has produced so far: the emitted chunks' words in
      emission order, then the pending words. */
  function Contents(a: Assembly): seq<string> {
    Flatten(a.emitted) + a.pending
  }

  /** No sentence of `sentences` is longer than `size` words, so none is hard-cut. */
  predicate NoLongSentence(sentences: seq<string>, size: nat) {
    forall k :: 0 <= k < |sentences| ==> |Words(sentences[k])| <= size
  }

  lemma FlattenSingle<T>(xs: seq<T>)
    ensures Flatten([xs]) == xs
  {
    assert [xs][1..] == [];
    assert xs + [] == xs;
  }

  lemma HardCutContents(a: Assembly, sentence: string, size: nat, overlap: int)
    requires size > 0 && |Words(sentence)| > size
    ensures Contents(Feed(a, sentence, size, overlap)) == Flatten(a.emitted) + Words(sentence) + a.pending
  {
    FlattenAppend(a.emitted, Blocks(Words(sentence), size));
    BlocksFlatten(Words(sentence), size);
  }

  lemma FlushContents(a: Assembly, sentence: string, size: nat, overlap: int)
    requires size > 0 && |Words(sentence)| <= size < |a.pending| + |Words(sentence)|
    ensures Contents(Feed(a, sentence, size, overlap))
         == Contents(a) + Seed(Join(a.pending), overlap) + Words(sentence)
  {
    FlattenAppend(a.emitted, [a.pending]);
    FlattenSingle(a.pending);
  }

  /** One sentence adds its words to what was produced; a reseed adds the
      carried-over words a second time, and nothing else is added. */
  lemma FeedContents(a: Assembly, sentence: string, size: nat, overlap: int)
    requires size > 0
    ensures multiset(Contents(a) + Words(sentence)) <= multiset(Contents(Feed(a, sentence, size, overlap)))
    ensures multiset(Contents(Feed(a, sentence, size, overlap)))
         <= multiset(Contents(a) + Words(sentence)) + multiset(Seed(Join(a.pending), overlap))
    ensures overlap <= 0 ==>
      multiset(Contents(a) + Words(sentence)) == multiset(Contents(Feed(a, sentence, size, overlap)))
    ensures overlap <= 0 && |Words(sentence)| <= size ==>
      Contents(Feed(a, sentence, size, overlap)) == Contents(a) + Words(sentence)
  {
    var words := Words(sentence);
    if |words| > size {
      HardCutContents(a, sentence, size, overlap);
    } else if |a.pending| + |words| > size {
      FlushContents(a, sentence, size, overlap);
      if overlap <= 0 {
        assert Seed(Join(a.pending), overlap) == [];
        assert Contents(a) + [] == Contents(a);
      }
    } else {
      ConcatAssoc(Flatten(a.emitted), a.pending, words);
    }
  }

  lemma {:induction false} FeedAllContents(sentences: seq<string>, size: nat, overlap: int)
    requires size > 0
    ensures multiset(WordsOfEach(sentences))
         <= multiset(Contents(FeedAll(Assembly([], []), sentences, size, overlap)))
    ensures overlap <= 0 ==>
      multiset(WordsOfEach(sentences)) == multiset(Contents(FeedAll(Assembly([], []), sentences, size, overlap)))
    ensures overlap <= 0 && NoLongSentence(sentences, size) ==>
      WordsOfEach(sentences) == Contents(FeedAll(Assembly([], []), sentences, size, overlap))
    decreases |sentences|
  {
    if sentences == [] {
      assert Contents(Assembly([], [])) == [];
    } else {
      var n := |sentences| - 1;
      var init, last := sentences[..n], sentences[n];
      var before := FeedAll(Assembly([], []), init, size, overlap);
      var after := FeedAll(Assembly([], []), sentences, size, overlap);
      assert after == Feed(before, last, size, overlap);
      FeedAllContents(init, size, overlap);
      FeedContents(before, last, size, overlap);
      WordsOfEachInit(sentences);
      ContentsGrow(WordsOfEach(init), Contents(before), Words(last), Contents(after));
      if overlap <= 0 && NoLongSentence(sentences, size) {
        assert NoLongSentence(init, size);
        assert |Words(last)| <= size;
      }
    }
  }

  /** Appending the same words to both sides keeps multiset inclusion and equality. */
  lemma ContentsGrow(ws: seq<string>, cs: seq<string>, x: seq<string>, next: seq<string>)
    ensures multiset(ws) <= multiset(cs) && multiset(cs + x) <= multiset(next) ==>
      multiset(ws + x) <= multiset(next)
    ensures multiset(ws) == multiset(cs) && multiset(cs + x) == multiset(next) ==>
      multiset(ws + x) == multiset(next)
  {
    assert multiset(ws + x) == multiset(ws) + multiset(x);
    assert multiset(cs + x) == multiset(cs) + multiset(x);
  }

  /** The chunks for a run of sentences hold every word of those sentences:
      with `overlap <= 0` each exactly once, and, when no sentence is hard-cut,
      in text order. With `overlap > 0` words may repeat but none is lost. */
  lemma AssembleConserves(sentences: seq<string>, size: nat, overlap: int)
    requires size > 0
    ensures multiset(WordsOfEach(sentences)) <= multiset(Flatten(Assemble(sentences, size, overlap)))
    ensures overlap <= 0 ==>
      multiset(WordsOfEach(sentences)) == multiset(Flatten(Assemble(sentences, size, overlap)))
    ensures overlap <= 0 && NoLongSentence(sentences, size) ==>
      WordsOfEach(sentences) == Flatten(Assemble(sentences, size, overlap))
  {
    var a := FeedAll(Assembly([], []), sentences, size, overlap);
    FeedAllContents(sentences, size, overlap);
    if a.pending != [] {
      FlattenAppend(a.emitted, [a.pending]);
      FlattenSingle(a.pending);
    } else {
      assert a.emitted + [] == a.emitted;
      assert Contents(a) == Flatten(a.emitted);
    }
  }

  /** Word conservation for a document: every word of the cleaned text appears
      in its chunks; with `overlap <= 0` exactly once; and when in addition no
      sentence exceeds `chunk_size`, the chunks read in order are the cleaned
      text's words in order. */
  lemma DocConserves(text: string, size: nat, overlap: int)
    requires size > 0
    ensures multiset(Words(CleanText(text))) <= multiset(Flatten(DocWordChunks(text, size, overlap)))
    ensures overlap <= 0 ==>
      multiset(Words(CleanText(text))) == multiset(Flatten(DocWordChunks(text, size, overlap)))
    ensures overlap <= 0 && NoLongSentence(SplitSentences(CleanText(text)), size) ==>
      Words(CleanText(text)) == Flatten(DocWordChunks(text, size, overlap))
  {
    var clean := CleanText(text);
    if clean != [] {
      CleanTextShape(text);
      var sentences := SplitSentences(clean);
      SplitSentencesJoin(clean);
      WordsOfJoin(sentences);
      AssembleConserves(sentences, size, overlap);
    }
  }

  // ---------------------------------------------------------------------------
  // Documents without text

  /** A document yields no chunk exactly when its cleaned text is empty, that
      is, when its text is all whitespace. */
  lemma DocChunksEmptyIff(doc: Document, size: nat, overlap: int)
    requires size > 0
    ensures DocChunks(doc, size, overlap) == [] <==> CleanText(doc.text) == []
    ensures DocChunks(doc, size, overlap) == [] <==> forall i :: 0 <= i < |doc.text| ==> IsSpace(doc.text[i])
  {
    var clean := CleanText(doc.text);
    var wcs := DocWordChunks(doc.text, size, overlap);
    LabelShape(doc, wcs);
    CleanTextEmptyIff(doc.text);
    if clean != [] {
      CleanTextShape(doc.text);
      WordsOfNonSpaceStart(clean);
      DocConserves(doc.text, size, overlap);
      var w := Words(clean)[0];
      assert w in multiset(Words(clean));
      assert w in multiset(Flatten(wcs));
      assert Flatten(wcs) != [];
    }
  }

  // ---------------------------------------------------------------------------
  // Records and ids

  /** The `k`-th record of a document carries sequence number `k`, the
      document's `source` and `page`, and the `k`-th word list joined by spaces. */
  lemma {:induction false} LabelShape(doc: Document, wordChunks: seq<seq<string>>)
    ensures |Label(doc, wordChunks)| == |wordChunks|
    ensures forall k :: 0 <= k < |wordChunks| ==> Label(doc, wordChunks)[k] == MakeChunk(doc, k, wordChunks[k])
    decreases |wordChunks|
  {
    if wordChunks != [] {
      var n := |wordChunks| - 1;
      LabelShape(doc, wordChunks[..n]);
    }
  }

  /** `source_p{page}_c{k}` determines `k`: the ids of one document differ. */
  lemma ChunkIdInjective(source: string, page: int, i: nat, j: nat)
    requires ChunkId(source, page, i) == ChunkId(source, page, j)
    ensures i == j
  {
    var head := source + "_p" + IntToString(page) + "_c";
    assert ChunkId(source, page, i) == head + NatToString(i);
    assert ChunkId(source, page, j) == head + NatToString(j);
    assert NatToString(i) == ChunkId(source, page, i)[|head|..];
    assert NatToString(j) == ChunkId(source, page, j)[|head|..];
    NatToStringInjective(i, j);
  }

  /** The chunks of one document: record `k` has id `source_p{page}_c{k}` (so the
      counter starts at 0 and rises by one per chunk, on every path), carries
      the document's `source` and `page` unchanged, and its text splits back
      into its word list, which holds between 1 and `chunk_size + max(overlap, 0)`
      words. The ids are pairwise distinct. */
  lemma DocChunksShape(doc: Document, size: nat, overlap: int)
    requires size > 0
    ensures |DocChunks(doc, size, overlap)| == |DocWordChunks(doc.text, size, overlap)|
    ensures forall k :: 0 <= k < |DocChunks(doc, size, overlap)| ==>
      && DocChunks(doc, size, overlap)[k].chunkId == ChunkId(doc.source, doc.page, k)
      && DocChunks(doc, size, overlap)[k].source == doc.source
      && DocChunks(doc, size, overlap)[k].page == doc.page
      && Words(DocChunks(doc, size, overlap)[k].text) == DocWordChunks(doc.text, size, overlap)[k]
      && 0 < |Words(DocChunks(doc, size, overlap)[k].text)| <= Cap(size, overlap)
    ensures forall i, j :: 0 <= i < j < |DocChunks(doc, size, overlap)| ==>
      DocChunks(doc, size, overlap)[i].chunkId != DocChunks(doc, size, overlap)[j].chunkId
  {
    var wcs := DocWordChunks(doc.text, size, overlap);
    var r := DocChunks(doc, size, overlap);
    LabelShape(doc, wcs);
    DocWordChunksGood(doc.text, size, overlap);
    forall k | 0 <= k < |r|
      ensures Words(r[k].text) == wcs[k] && 0 < |wcs[k]| <= Cap(size, overlap)
    {
      assert r[k].text == Join(wcs[k]);
      WordsJoinRoundTrip(wcs[k]);
    }
    forall i, j | 0 <= i < j < |r|
      ensures r[i].chunkId != r[j].chunkId
    {
      if r[i].chunkId == r[j].chunkId {
        ChunkIdInjective(doc.source, doc.page, i, j);
      }
    }
  }

  lemma DocWordChunksGood(text: string, size: nat, overlap: int)
    requires size > 0
    ensures forall k :: 0 <= k < |DocWordChunks(text, size, overlap)| ==>
      GoodChunk(DocWordChunks(text, size, overlap)[k], Cap(size, overlap))
  {
    var clean := CleanText(text);
    if clean != [] {
      AssembleGood(SplitSentences(clean), size, overlap);
    }
  }

  // ---------------------------------------------------------------------------
  // Document order

  lemma {:induction false} AllChunksAppend(xs: seq<Document>, ys: seq<Document>, size: nat, overlap: int)
    requires size > 0
    ensures AllChunks(xs + ys, size, overlap) == AllChunks(xs, size, overlap) + AllChunks(ys, size, overlap)
    decreases |xs|
  {
    if xs == [] {
      assert xs + ys == ys;
    } else {
      assert (xs + ys)[1..] == xs[1..] + ys;
      AllChunksAppend(xs[1..], ys, size, overlap);
      ConcatAssoc(DocChunks(xs[0], size, overlap), AllChunks(xs[1..], size, overlap), AllChunks(ys, size, overlap));
    }
  }

  /** The chunks of document `i` come after those of the documents before it
      and before those of the documents after it. */
  lemma AllChunksOrder(docs: seq<Document>, i: nat, size: nat, overlap: int)
    requires size > 0 && i < |docs|
    ensures AllChunks(docs, size, overlap)
         == AllChunks(docs[..i], size, overlap) + DocChunks(docs[i], size, overlap)
            + AllChunks(docs[i + 1..], size, overlap)
  {
    assert docs == docs[..i] + docs[i..];
    AllChunksAppend(docs[..i], docs[i..], size, overlap);
    assert docs[i..][1..] == docs[i + 1..];
    ConcatAssoc(AllChunks(docs[..i], size, overlap), DocChunks(docs[i], size, overlap),
                AllChunks(docs[i + 1..], size, overlap));
  }

  /** With `chunk_size` below 1 no document adds a chunk: a negative size gives
      `Chunks([])` and a size of 0 gives `[]` or the `ValueError` of `range`. */
  lemma {:induction false} AllChunksNonPositive(docs: seq<Document>, size: int, overlap: int)
    requires size <= 0
    ensures AllChunks(docs, size, overlap) == []
    decreases |docs|
  {
    if docs != [] {
      AllChunksNonPositive(docs[1..], size, overlap);
      assert DocChunks(docs[0], size, overlap) == Label(docs[0], []);
    }
  }

  // ---------------------------------------------------------------------------
  // The two behaviours of the source worth knowing about

  lemma BlocksOfThree(ws: seq<string>)
    requires |ws| == 3
    ensures Blocks(ws, 2) == [ws[..2], ws[2..]]
  {
    assert Blocks(ws, 2) == [ws[..2]] + Blocks(ws[2..], 2);
  }

  /** Two sentences are fed one after the other. */
  lemma FeedAllPair(a: Assembly, x: string, y: string, size: nat, overlap: int)
    requires size > 0
    ensures FeedAll(a, [x, y], size, overlap) == Feed(Feed(a, x, size, overlap), y, size, overlap)
  {
    var ss := [x, y];
    assert ss[..1] == [x] && [x][..0] == [];
    assert FeedAll(a, ss, size, overlap) == Feed(FeedAll(a, [x], size, overlap), y, size, overlap);
    assert FeedAll(a, [x], size, overlap) == Feed(FeedAll(a, [], size, overlap), x, size, overlap);
  }

  /** A chunk from the normal path can exceed `chunk_size`: with `chunk_size`
      2 and `overlap` 1, two sentences of two words each give a second chunk
      of three words, because after the reseed the second sentence is appended
      without checking the budget again. */
  lemma OversizeExample(first: string, second: string)
    requires |Words(first)| == 2 && |Words(second)| == 2
    ensures Assemble([first, second], 2, 1) == [Words(first), Words(first)[1..] + Words(second)]
    ensures |Assemble([first, second], 2, 1)[1]| == 3
  {
    FeedAllPair(Assembly([], []), first, second, 2, 1);
    var a1 := Feed(Assembly([], []), first, 2, 1);
    assert a1 == Assembly(Words(first), []) by {
      assert [] + Words(first) == Words(first);
    }
    var w1 := Words(first);
    assert Seed(Join(w1), 1) == w1[1..] by {
      SeedOfFlushed(w1, 1);
    }
    assert Feed(a1, second, 2, 1) == Assembly(w1[1..] + Words(second), [] + [w1]);
    assert [] + [w1] == [w1];
  }

  /** Emission order can differ from text order: with `chunk_size` 2, a
      one-word sentence followed by a three-word one is emitted after the two
      blocks of the long sentence. */
  lemma EmissionOrderExample(first: string, second: string)
    requires |Words(first)| == 1 && |Words(second)| == 3
    ensures Assemble([first, second], 2, 0) == [Words(second)[..2], Words(second)[2..], Words(first)]
  {
    FeedAllPair(Assembly([], []), first, second, 2, 0);
    var a1 := Feed(Assembly([], []), first, 2, 0);
    assert a1 == Assembly(Words(first), []) by {
      assert [] + Words(first) == Words(first);
    }
    var ws := Words(second);
    BlocksOfThree(ws);
    assert Feed(a1, second, 2, 0) == Assembly(Words(first), [ws[..2], ws[2..]]);
  }
}
