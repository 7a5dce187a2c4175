/**
 * The word-based chunker of `PDFProcessor` (services/pdf_service.py):
 * the text is split into words, words are added to a running buffer whose
 * size counts each word's length plus one separator, and the buffer is
 * emitted as one space-joined chunk as soon as that size reaches the
 * processor's chunk size.
 */
module Chunking {
  import opened Text

  /** The chunk size `PDFProcessor.__init__` configures. */
  const DefaultChunkSize: nat := 1000

  /** Accumulated size of a buffer: each word's length plus one separator. */
  function Size(ws: seq<string>): nat
  {
    if ws == [] then 0 else Size(ws[..|ws| - 1]) + |ws[|ws| - 1]| + 1
  }

  /** All groups, concatenated in order. */
  function Flatten(gs: seq<seq<string>>): seq<string>
  {
    if gs == [] then [] else gs[0] + Flatten(gs[1..])
  }

  /** Each group joined with single spaces: the chunk strings. */
  function JoinEach(gs: seq<seq<string>>): (cs: seq<string>)
    ensures |cs| == |gs|
  {
    seq(|gs|, k requires 0 <= k < |gs| => Join(gs[k]))
  }

  /** The words of each chunk, chunk by chunk. */
  function WordsOfEach(cs: seq<string>): (wss: seq<seq<string>>)
    ensures |wss| == |cs|
  {
    seq(|cs|, k requires 0 <= k < |cs| => Words(cs[k]))
  }

  /**
   * The loop state of `_split_into_chunks` between iterations: the
   * chunks emitted so far (as word groups) and `current_chunk`.
   */
  datatype Buffer = Buffer(emitted: seq<seq<string>>, current: seq<string>)

  /** One iteration: append the word; emit and reset once the size reaches the limit. */
  function Step(b: Buffer, w: string, limit: nat): Buffer
  {
    var cur := b.current + [w];
    if Size(cur) >= limit then Buffer(b.emitted + [cur], []) else Buffer(b.emitted, cur)
  }

  /**
   * A group the loop emits: non-empty, its size reached the limit, and it
   * reached it only with its last word (the overshoot is at most one word).
   */
  predicate IsFull(g: seq<string>, limit: nat)
  {
    g != [] && Size(g) >= limit && (|g| > 1 ==> Size(g[..|g| - 1]) < limit)
  }

  /**
   * The loop state after the given words have been processed, starting from
   * an empty buffer. Nothing is lost or reordered, every emitted group is
   * full, and the buffer left over is below the limit.
   */
  function Fill(words: seq<string>, limit: nat): (b: Buffer)
    ensures Flatten(b.emitted) + b.current == words
    ensures forall k :: 0 <= k < |b.emitted| ==> IsFull(b.emitted[k], limit)
    ensures b.current == [] || Size(b.current) < limit
    decreases |words|
  {
    if words == [] then Buffer([], [])
    else
      var prev := Fill(words[..|words| - 1], limit);
      var w := words[|words| - 1];
      StepKeepsInvariant(prev, w, limit);
      assert words == words[..|words| - 1] + [w];
      Step(prev, w, limit)
  }

  /** One iteration keeps the loop's invariant and appends the word to the processed ones. */
  lemma StepKeepsInvariant(b: Buffer, w: string, limit: nat)
    requires forall k :: 0 <= k < |b.emitted| ==> IsFull(b.emitted[k], limit)
    requires b.current == [] || Size(b.current) < limit
    ensures Flatten(Step(b, w, limit).emitted) + Step(b, w, limit).current
            == Flatten(b.emitted) + b.current + [w]
    ensures forall k :: 0 <= k < |Step(b, w, limit).emitted| ==> IsFull(Step(b, w, limit).emitted[k], limit)
    ensures Step(b, w, limit).current == [] || Size(Step(b, w, limit).current) < limit
  {
    var cur := b.current + [w];
    assert cur[..|cur| - 1] == b.current;
    if Size(cur) >= limit {
      FlattenSnoc(b.emitted, cur);
      assert IsFull(cur, limit);
      var e := b.emitted + [cur];
      forall k | 0 <= k < |e| ensures IsFull(e[k], limit) {
        if k < |b.emitted| { assert e[k] == b.emitted[k]; }
      }
    }
  }

  /** Processing one more word is one more `Step`. */
  lemma FillNext(words: seq<string>, i: nat, limit: nat)
    requires i < |words|
    ensures Fill(words[..i + 1], limit) == Step(Fill(words[..i], limit), words[i], limit)
  {
    assert words[..i + 1][..i] == words[..i];
  }

  /** The groups `_split_into_chunks` produces: the emitted ones, then the non-empty remainder. */
  function Groups(words: seq<string>, limit: nat): seq<seq<string>>
  {
    var b := Fill(words, limit);
    b.emitted + (if b.current == [] then [] else [b.current])
  }

  /** The chunk strings `_split_into_chunks(text)` returns for a given chunk size. */
  function ChunkText(text: string, limit: nat): seq<string>
  {
    JoinEach(Groups(Words(text), limit))
  }

  /**
   * What a greedy word chunking is, independently of the loop: the groups
   * concatenate to the words, none is empty, none reaches the limit before
   * its last word, and every group but the last reaches the limit.
   */
  ghost predicate IsChunking(words: seq<string>, gs: seq<seq<string>>, limit: nat)
  {
    && Flatten(gs) == words
    && (forall k :: 0 <= k < |gs| ==> gs[k] != [])
    && (forall k :: 0 <= k < |gs| && |gs[k]| > 1 ==> Size(gs[k][..|gs[k]| - 1]) < limit)
    && (forall k :: 0 <= k < |gs| - 1 ==> Size(gs[k]) >= limit)
  }

  // ---------------------------------------------------------------------
  // Lemmas about sizes and concatenation

  lemma JoinEachSnoc(gs: seq<seq<string>>, g: seq<string>)
    ensures JoinEach(gs + [g]) == JoinEach(gs) + [Join(g)]
  {
  }

  lemma {:induction false} FlattenSnoc(gs: seq<seq<string>>, g: seq<string>)
    ensures Flatten(gs + [g]) == Flatten(gs) + g
    decreases |gs|
  {
    if gs == [] {
      assert [g][1..] == [];
    } else {
      assert (gs + [g])[1..] == gs[1..] + [g];
      FlattenSnoc(gs[1..], g);
    }
  }

  lemma {:induction false} FlattenLength(gs: seq<seq<string>>)
    requires forall k :: 0 <= k < |gs| ==> gs[k] != []
    ensures |Flatten(gs)| >= |gs|
  {
    if gs != [] {
      FlattenLength(gs[1..]);
    }
  }

  lemma {:induction false} SizeAppend(a: seq<string>, b: seq<string>)
    ensures Size(a + b) == Size(a) + Size(b)
    decreases |b|
  {
    if b == [] {
      assert a + b == a;
    } else {
      assert (a + b)[..|a + b| - 1] == a + b[..|b| - 1];
      SizeAppend(a, b[..|b| - 1]);
    }
  }

  /** A prefix of a group is no larger than the group. */
  lemma SizePrefix(g: seq<string>, k: nat)
    requires k <= |g|
    ensures Size(g[..k]) <= Size(g)
  {
    assert g == g[..k] + g[k..];
    SizeAppend(g[..k], g[k..]);
  }

  /** Each chunk string is one character shorter than its accumulated size. */
  lemma {:induction false} JoinLength(ws: seq<string>)
    requires ws != []
    ensures |Join(ws)| == Size(ws) - 1
  {
    assert ws == [ws[0]] + ws[1..];
    SizeAppend([ws[0]], ws[1..]);
    assert [ws[0]][..0] == [];
    if |ws| > 1 {
      JoinLength(ws[1..]);
    }
  }

  // ---------------------------------------------------------------------
  // Properties of the chunking

  /** The loop's groups are a greedy chunking of the words. */
  lemma GroupsAreChunking(words: seq<string>, limit: nat)
    ensures IsChunking(words, Groups(words, limit), limit)
    ensures |Groups(words, limit)| <= |words|
  {
    var b := Fill(words, limit);
    var gs := Groups(words, limit);
    if b.current == [] {
      assert gs == b.emitted;
      assert b.emitted + [] == b.emitted;
      assert Flatten(gs) + [] == Flatten(gs);
    } else {
      FlattenSnoc(b.emitted, b.current);
      forall k | 0 <= k < |gs| && |gs[k]| > 1
        ensures Size(gs[k][..|gs[k]| - 1]) < limit
      {
        if k == |gs| - 1 {
          SizePrefix(b.current, |b.current| - 1);
        }
      }
    }
    FlattenLength(gs);
  }

  /** Two greedy chunkings of the same words are the same chunking. */
  lemma {:induction false} ChunkingUnique(words: seq<string>, gs: seq<seq<string>>, hs: seq<seq<string>>, limit: nat)
    requires IsChunking(words, gs, limit)
    requires IsChunking(words, hs, limit)
    ensures gs == hs
    decreases |words|
  {
    if gs == [] || hs == [] {
      FlattenLength(gs);
      FlattenLength(hs);
    } else {
      var g, h := gs[0], hs[0];
      assert words == g + Flatten(gs[1..]);
      assert words == h + Flatten(hs[1..]);
      FirstGroupNotShorter(words, gs, hs, limit);
      FirstGroupNotShorter(words, hs, gs, limit);
      assert g == words[..|g|] == h;
      var rest := words[|g|..];
      TailIsChunking(words, gs, limit);
      TailIsChunking(words, hs, limit);
      ChunkingUnique(rest, gs[1..], hs[1..], limit);
      assert gs == [g] + gs[1..];
      assert hs == [h] + hs[1..];
    }
  }

  /** The first group of a greedy chunking is never shorter than another chunking's first group. */
  lemma FirstGroupNotShorter(words: seq<string>, gs: seq<seq<string>>, hs: seq<seq<string>>, limit: nat)
    requires IsChunking(words, gs, limit) && IsChunking(words, hs, limit)
    requires gs != [] && hs != []
    ensures |gs[0]| >= |hs[0]|
  {
    var g, h := gs[0], hs[0];
    if |g| < |h| {
      assert words == g + Flatten(gs[1..]);
      assert words == h + Flatten(hs[1..]);
      assert g == words[..|g|] == h[..|g|];
      var hh := h[..|h| - 1];
      assert g == hh[..|g|];
      SizePrefix(hh, |g|);
      assert false;
    }
  }

  /** Dropping the first group of a chunking leaves a chunking of the remaining words. */
  lemma TailIsChunking(words: seq<string>, gs: seq<seq<string>>, limit: nat)
    requires IsChunking(words, gs, limit) && gs != []
    ensures IsChunking(words[|gs[0]|..], gs[1..], limit)
  {
  }

  /**
   * The loop's output is exactly the greedy chunking: a grouping of the words
   * is a greedy chunking if and only if it is the one the loop produces.
   */
  lemma GroupsCharacterised(words: seq<string>, gs: seq<seq<string>>, limit: nat)
    ensures IsChunking(words, gs, limit) <==> gs == Groups(words, limit)
  {
    GroupsAreChunking(words, limit);
    if IsChunking(words, gs, limit) {
      ChunkingUnique(words, gs, Groups(words, limit), limit);
    }
  }

  /** Text that is empty or all whitespace yields no chunks, and only such text does. */
  lemma ChunkTextEmptyIffBlank(text: string, limit: nat)
    ensures ChunkText(text, limit) == [] <==> IsBlank(text)
  {
    WordsEmptyIffBlank(text);
    var words := Words(text);
    GroupsAreChunking(words, limit);
    var gs := Groups(words, limit);
    if gs == [] {
      assert Flatten(gs) == [];
    }
  }

  /**
   * Splitting every chunk on whitespace and concatenating the results gives
   * back exactly the words of the text: none lost, duplicated or reordered.
   */
  lemma ChunkTextRoundTrip(text: string, limit: nat)
    ensures Flatten(WordsOfEach(ChunkText(text, limit))) == Words(text)
  {
    var words := Words(text);
    var gs := Groups(words, limit);
    GroupsAreChunking(words, limit);
    FlattenContains(gs, words);
    forall k | 0 <= k < |gs| ensures Words(Join(gs[k])) == gs[k] {
      WordsOfJoin(gs[k]);
    }
    assert WordsOfEach(JoinEach(gs)) == gs;
  }

  /**
   * The chunks lose and add no character but whitespace: splitting every chunk
   * and concatenating all the words gives the text's non-whitespace characters
   * in their original order.
   */
  lemma ChunkTextKeepsCharacters(text: string, limit: nat)
    ensures Concat(Flatten(WordsOfEach(ChunkText(text, limit)))) == NonSpace(text)
  {
    ChunkTextRoundTrip(text, limit);
    WordsKeepCharacters(text);
  }

  /** Every element of a group is an element of the flattened sequence. */
  lemma {:induction false} FlattenContains(gs: seq<seq<string>>, ws: seq<string>)
    requires Flatten(gs) == ws
    ensures forall k, i :: 0 <= k < |gs| && 0 <= i < |gs[k]| ==> gs[k][i] in ws
  {
    if gs != [] {
      FlattenContains(gs[1..], Flatten(gs[1..]));
      forall k, i | 0 <= k < |gs| && 0 <= i < |gs[k]| ensures gs[k][i] in ws {
        if k > 0 {
          assert gs[k] == gs[1..][k - 1];
        }
      }
    }
  }

  /** A group's size counts at least its first word and one separator. */
  lemma SizeAtLeastFirst(g: seq<string>)
    requires g != []
    ensures Size(g) >= |g[0]| + 1
  {
  }

  /**
   * No chunk is empty; each chunk's length is its accumulated size minus
   * one; there are no more chunks than words.
   */
  lemma ChunkTextShape(text: string, limit: nat)
    ensures var cs := ChunkText(text, limit);
            && |cs| <= |Words(text)|
            && forall k :: 0 <= k < |cs| ==> cs[k] != "" && |cs[k]| == Size(Groups(Words(text), limit)[k]) - 1
  {
    var words := Words(text);
    var gs := Groups(words, limit);
    var cs := JoinEach(gs);
    GroupsAreChunking(words, limit);
    FlattenContains(gs, words);
    forall k | 0 <= k < |cs|
      ensures cs[k] != "" && |cs[k]| == Size(gs[k]) - 1
    {
      var g := gs[k];
      JoinLength(g);
      assert g[0] in words;
      SizeAtLeastFirst(g);
    }
  }

  /**
   * `PDFProcessor`: holds the chunk size set in its constructor and splits
   * extracted text into chunks.
   */
  class PdfProcessor {
    const chunkSize: nat

    constructor()
      ensures chunkSize == DefaultChunkSize
    {
      chunkSize := DefaultChunkSize;
    }

    /** `_split_into_chunks`: the word loop over `text.split()`. */
    method SplitIntoChunks(text: string) returns (chunks: seq<string>)
      ensures chunks == ChunkText(text, chunkSize)
    {
      var words := Words(text);
      chunks := [];
      var currentChunk: seq<string> := [];
      var currentSize := 0;
      ghost var emitted: seq<seq<string>> := [];
      for i := 0 to |words|
        invariant Fill(words[..i], chunkSize) == Buffer(emitted, currentChunk)
        invariant chunks == JoinEach(emitted)
        invariant currentSize == Size(currentChunk)
      {
        var word := words[i];
        ghost var before := Buffer(emitted, currentChunk);
        FillNext(words, i, chunkSize);
        currentChunk := currentChunk + [word];
        currentSize := currentSize + |word| + 1;
        if currentSize >= chunkSize {
          JoinEachSnoc(emitted, currentChunk);
          chunks := chunks + [Join(currentChunk)];
          emitted := emitted + [currentChunk];
          currentChunk := [];
          currentSize := 0;
        }
        assert Buffer(emitted, currentChunk) == Step(before, word, chunkSize);
      }
      assert words[..|words|] == words;
      assert Groups(words, chunkSize) == emitted + (if currentChunk == [] then [] else [currentChunk]);
      if currentChunk != [] {
        JoinEachSnoc(emitted, currentChunk);
        chunks := chunks + [Join(currentChunk)];
        emitted := emitted + [currentChunk];
      }
      assert chunks == JoinEach(emitted);
    }
  }
}
