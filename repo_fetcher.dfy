/** The repository fetcher agent: it splits a text into whitespace-separated words
    and packs them greedily into chunks, a chunk closing at the first word that
    makes its running size reach the chunk size; then it attaches one embedding per
    chunk. */
module RepoFetcher {
  import opened Seqs
  import opened Text

  /** The chunk size `process` uses (the default argument of chunk_text). */
  const DefaultChunkSize: int := 1000

  /** An embedding vector (the MD5-derived floats of simple_embedding). */
  type Embedding = seq<real>

  datatype ChunkResponse = ChunkResponse(chunks: seq<string>, embeddings: seq<Embedding>)

  /** The size a run of words accumulates in chunk_text: len(word) + 1 per word. */
  function Size(ws: seq<string>): nat {
    if ws == [] then 0 else Size(ws[..|ws| - 1]) + |ws[|ws| - 1]| + 1
  }

  /** The end of the chunk that starts at the beginning of ws, searching from k on:
      the first prefix length whose size reaches `size`, or all of ws when none does. */
  function ChunkEnd(ws: seq<string>, size: int, k: nat): (e: nat)
    requires 1 <= k <= |ws|
    ensures k <= e <= |ws|
    decreases |ws| - k
  {
    if k == |ws| || Size(ws[..k]) >= size then k else ChunkEnd(ws, size, k + 1)
  }

  /** The chunk end is the first prefix length from k on that reaches the
      threshold: the prefixes before it stay below, and it reaches the threshold
      unless it is the end of the words. */
  lemma {:induction false} ChunkEndIsFirstReach(ws: seq<string>, size: int, k: nat)
    requires 1 <= k <= |ws|
    ensures ChunkEnd(ws, size, k) < |ws| ==> Size(ws[..ChunkEnd(ws, size, k)]) >= size
    ensures forall m :: k <= m < ChunkEnd(ws, size, k) ==> Size(ws[..m]) < size
    decreases |ws| - k
  {
    if !(k == |ws| || Size(ws[..k]) >= size) {
      ChunkEndIsFirstReach(ws, size, k + 1);
    }
  }

  /** The word groups of the chunks: every group is the shortest run of the
      remaining words whose size reaches `size`, and what is left at the end
      forms the last group. */
  function Groups(ws: seq<string>, size: int): seq<seq<string>>
    decreases |ws|
  {
    if ws == [] then [] else [ws[..ChunkEnd(ws, size, 1)]] + Groups(ws[ChunkEnd(ws, size, 1)..], size)
  }

  /** The shape of a grouping: no group is empty, every group but the last
      reaches the threshold, and no proper prefix of a group does. */
  predicate WellChunked(gs: seq<seq<string>>, size: int) {
    (forall k :: 0 <= k < |gs| ==> gs[k] != []) &&
    (forall k :: 0 <= k < |gs| - 1 ==> Size(gs[k]) >= size) &&
    (forall k, m :: 0 <= k < |gs| && 1 <= m < |gs[k]| ==> Size(gs[k][..m]) < size)
  }

  /** A first group that is non-empty, reaches the threshold when more groups
      follow, and has no proper prefix reaching it extends a well-chunked grouping. */
  lemma WellChunkedCons(g: seq<string>, rest: seq<seq<string>>, size: int)
    requires g != [] && (rest != [] ==> Size(g) >= size)
    requires forall m :: 1 <= m < |g| ==> Size(g[..m]) < size
    requires WellChunked(rest, size)
    ensures WellChunked([g] + rest, size)
  {
    var gs := [g] + rest;
    forall k | 0 <= k < |gs| ensures gs[k] != [] && (k < |gs| - 1 ==> Size(gs[k]) >= size) &&
                                  forall m :: 1 <= m < |gs[k]| ==> Size(gs[k][..m]) < size
    {
      if k > 0 {
        assert gs[k] == rest[k - 1];
      }
    }
  }

  /** Every group of a well-chunked grouping satisfies the shape on its own, and
      the groups after the first are well chunked again. */
  lemma WellChunkedTail(gs: seq<seq<string>>, size: int)
    requires WellChunked(gs, size) && gs != []
    ensures gs[0] != [] && (|gs| > 1 ==> Size(gs[0]) >= size)
    ensures forall m :: 1 <= m < |gs[0]| ==> Size(gs[0][..m]) < size
    ensures WellChunked(gs[1..], size)
  {
    var rest := gs[1..];
    forall k | 0 <= k < |rest| ensures rest[k] != [] && (k < |rest| - 1 ==> Size(rest[k]) >= size) &&
                                    forall m :: 1 <= m < |rest[k]| ==> Size(rest[k][..m]) < size
    {
      assert rest[k] == gs[k + 1];
    }
  }

  /** The groups are the words, in order, each exactly once; there are at most as
      many groups as words and at least one when there is a word; and the grouping
      is well chunked. */
  lemma {:induction false} GroupsShape(ws: seq<string>, size: int)
    ensures Flatten(Groups(ws, size)) == ws
    ensures |Groups(ws, size)| <= |ws|
    ensures ws != [] ==> |Groups(ws, size)| >= 1
    ensures WellChunked(Groups(ws, size), size)
    decreases |ws|
  {
    if ws != [] {
      var e := ChunkEnd(ws, size, 1);
      ChunkEndIsFirstReach(ws, size, 1);
      var rest := Groups(ws[e..], size);
      GroupsShape(ws[e..], size);
      assert Groups(ws, size) == [ws[..e]] + rest;
      assert ws[..e] + ws[e..] == ws;
      assert forall m :: 1 <= m < e ==> ws[..e][..m] == ws[..m];
      WellChunkedCons(ws[..e], rest, size);
    }
  }

  /** What chunk_text returns: each word group joined with single spaces. */
  function Chunks(text: string, size: int): seq<string> {
    JoinAll(Groups(Words(text), size))
  }

  /** Each word group joined with single spaces, in order. */
  function JoinAll(gs: seq<seq<string>>): seq<string> {
    seq(|gs|, i requires 0 <= i < |gs| => JoinSpace(gs[i]))
  }

  lemma JoinAllSnoc(gs: seq<seq<string>>, g: seq<string>)
    ensures JoinAll(gs + [g]) == JoinAll(gs) + [JoinSpace(g)]
  {
  }

  /** When the words of ws[..e] are the first to reach the threshold, ws[..e] is
      the first group. */
  lemma ChunkClosesAt(ws: seq<string>, size: int, e: nat)
    requires 1 <= e <= |ws|
    requires forall m :: 1 <= m < e ==> Size(ws[..m]) < size
    requires e == |ws| || Size(ws[..e]) >= size
    ensures Groups(ws, size) == [ws[..e]] + Groups(ws[e..], size)
  {
    var r := ChunkEnd(ws, size, 1);
    ChunkEndIsFirstReach(ws, size, 1);
    assert !(r < e);
    assert !(r > e);
  }

  /** A run of words is at least as large as each of its prefixes. */
  lemma {:induction false} SizeOfPrefix(ws: seq<string>, m: nat)
    requires m <= |ws|
    ensures Size(ws[..m]) <= Size(ws)
    decreases |ws|
  {
    if m < |ws| {
      var ws' := ws[..|ws| - 1];
      assert ws[..m] == ws'[..m];
      SizeOfPrefix(ws', m);
    } else {
      assert ws[..m] == ws;
    }
  }

  /** A run c of words followed by the rest forms the first chunk when the words
      before its last one stayed below the threshold and c reaches it (or nothing
      follows). */
  lemma ChunkCloses(c: seq<string>, rest: seq<string>, size: int)
    requires c != []
    requires |c| > 1 ==> Size(c[..|c| - 1]) < size
    requires rest == [] || Size(c) >= size
    ensures Groups(c + rest, size) == [c] + Groups(rest, size)
  {
    var ws := c + rest;
    forall m | 1 <= m < |c| ensures Size(ws[..m]) < size {
      assert ws[..m] == c[..|c| - 1][..m];
      SizeOfPrefix(c[..|c| - 1], m);
    }
    assert ws[..|c|] == c;
    assert ws[|c|..] == rest;
    ChunkClosesAt(ws, size, |c|);
  }

  /** Words still below the threshold when the text ends form the last chunk. */
  lemma LastChunk(current: seq<string>, size: int)
    requires current != [] ==> Size(current) < size
    ensures Groups(current, size) == if current == [] then [] else [current]
  {
    if current != [] {
      SizeOfPrefix(current, |current| - 1);
      ChunkCloses(current, [], size);
      assert current + [] == current;
    }
  }

  /** One step of chunk_text: appending word ws[i] to the open chunk adds
      len(ws[i]) + 1 to its size, and if that reaches the threshold the chunk is the
      first group of what remains. */
  lemma AppendWord(current: seq<string>, ws: seq<string>, i: nat, size: int)
    requires i < |ws|
    requires current != [] ==> Size(current) < size
    ensures Size(current + [ws[i]]) == Size(current) + |ws[i]| + 1
    ensures current + ws[i..] == (current + [ws[i]]) + ws[i + 1..]
    ensures Size(current + [ws[i]]) >= size ==>
              Groups(current + ws[i..], size) == [current + [ws[i]]] + Groups(ws[i + 1..], size)
  {
    var c := current + [ws[i]];
    assert c[..|current|] == current;
    assert ws[i..] == [ws[i]] + ws[i + 1..];
    if Size(c) >= size {
      ChunkCloses(c, ws[i + 1..], size);
    }
  }

  /** chunk_text: walk the words, appending each to the current chunk and adding
      len(word) + 1 to its size; close the chunk once the size reaches chunkSize,
      and emit what is left at the end. */
  method ChunkText(text: string, chunkSize: int) returns (chunks: seq<string>)
    ensures chunks == Chunks(text, chunkSize)
  {
    var words := Words(text);
    chunks := [];
    var current: seq<string> := [];
    var currentSize := 0;
    // done: the groups already closed; pending: the groups still to come
    ghost var done: seq<seq<string>> := [];
    ghost var pending := Groups(words, chunkSize);
    assert current + words[0..] == words;
    for i := 0 to |words|
      invariant currentSize == Size(current)
      invariant current != [] ==> currentSize < chunkSize
      invariant pending == Groups(current + words[i..], chunkSize)
      invariant done + pending == Groups(words, chunkSize)
      invariant chunks == JoinAll(done)
    {
      AppendWord(current, words, i, chunkSize);
      current := current + [words[i]];
      currentSize := currentSize + |words[i]| + 1;
      if currentSize >= chunkSize {
        JoinAllSnoc(done, current);
        chunks := chunks + [JoinSpace(current)];
        ghost var rest := Groups(words[i + 1..], chunkSize);
        ConcatAssoc(done, [current], rest);
        done, pending := done + [current], rest;
        current := [];
        currentSize := 0;
        assert current + words[i + 1..] == words[i + 1..];
      }
    }
    assert current + words[|words|..] == current;
    LastChunk(current, chunkSize);
    if current != [] {
      JoinAllSnoc(done, current);
      chunks := chunks + [JoinSpace(current)];
      done := done + pending;
    } else {
      assert done + pending == done;
    }
  }

  /** process: the chunks of the text (default chunk size) and one embedding per
      chunk, in chunk order. The embedding function is a parameter. */
  method Process(text: string, embed: string -> Embedding) returns (r: ChunkResponse)
    ensures r.chunks == Chunks(text, DefaultChunkSize)
    ensures |r.embeddings| == |r.chunks|
    ensures forall i :: 0 <= i < |r.chunks| ==> r.embeddings[i] == embed(r.chunks[i])
  {
    var chunks := ChunkText(text, DefaultChunkSize);
    var embeddings := seq(|chunks|, i requires 0 <= i < |chunks| => embed(chunks[i]));
    r := ChunkResponse(chunks, embeddings);
  }

  /** Every group is made of words of ws. */
  lemma GroupMembers(ws: seq<string>, size: int)
    ensures forall k, j :: 0 <= k < |Groups(ws, size)| && 0 <= j < |Groups(ws, size)[k]| ==>
              Groups(ws, size)[k][j] in ws
  {
    var gs := Groups(ws, size);
    GroupsShape(ws, size);
    forall k, j | 0 <= k < |gs| && 0 <= j < |gs[k]| ensures gs[k][j] in ws {
      FlattenMember(gs, k, gs[k][j]);
    }
  }

  /** Splitting each chunk again gives back its word group. */
  lemma ChunkWords(text: string, size: int)
    ensures |Chunks(text, size)| == |Groups(Words(text), size)|
    ensures forall i :: 0 <= i < |Chunks(text, size)| ==>
              Words(Chunks(text, size)[i]) == Groups(Words(text), size)[i]
  {
    var ws := Words(text);
    var gs := Groups(ws, size);
    GroupMembers(ws, size);
    forall i | 0 <= i < |gs| ensures Words(JoinSpace(gs[i])) == gs[i] {
      WordsOfJoin(gs[i]);
    }
  }

  /** Each chunk split into its words again. */
  function Resplit(chunks: seq<string>): seq<seq<string>> {
    seq(|chunks|, i requires 0 <= i < |chunks| => Words(chunks[i]))
  }

  /** Re-splitting all chunks into words, in order, reproduces text.split():
      no word is lost, duplicated or reordered. */
  lemma ResplitChunks(text: string, size: int)
    ensures Flatten(Resplit(Chunks(text, size))) == Words(text)
  {
    ChunkWords(text, size);
    GroupsShape(Words(text), size);
    assert Resplit(Chunks(text, size)) == Groups(Words(text), size);
  }

  /** The chunks themselves, stated on the chunk strings: each is a single-space
      join of at least one word; every chunk but the last reached the threshold;
      no proper prefix of a chunk's words did; and there are at most as many
      chunks as words, and at least one when there is a word. */
  lemma ChunkShape(text: string, size: int)
    ensures |Chunks(text, size)| <= |Words(text)|
    ensures Words(text) != [] ==> |Chunks(text, size)| >= 1
    ensures forall i :: 0 <= i < |Chunks(text, size)| ==>
              Words(Chunks(text, size)[i]) != [] &&
              Chunks(text, size)[i] == JoinSpace(Words(Chunks(text, size)[i]))
    ensures forall i :: 0 <= i < |Chunks(text, size)| - 1 ==>
              Size(Words(Chunks(text, size)[i])) >= size
    ensures forall i, m :: 0 <= i < |Chunks(text, size)| && 1 <= m < |Words(Chunks(text, size)[i])| ==>
              Size(Words(Chunks(text, size)[i])[..m]) < size
  {
    ChunkWords(text, size);
    GroupsShape(Words(text), size);
  }

  /** Text with no words (empty or whitespace only) gives no chunks, and only such
      text does. */
  lemma BlankTextNoChunks(text: string, size: int)
    ensures Chunks(text, size) == [] <==> forall i :: 0 <= i < |text| ==> IsSpace(text[i])
  {
    WordsEmptyIffBlank(text);
  }

  /** The shape stated in Groups' contract determines the grouping: any split of ws
      into non-empty runs, in order, where every run but the last is the first to
      reach the threshold and no proper prefix of a run reaches it, is Groups(ws). */
  lemma {:induction false} GroupsUnique(ws: seq<string>, size: int, gs: seq<seq<string>>)
    requires Flatten(gs) == ws
    requires WellChunked(gs, size)
    ensures gs == Groups(ws, size)
    decreases |gs|
  {
    if gs != [] {
      var g := gs[0];
      var rest := gs[1..];
      WellChunkedTail(gs, size);
      assert ws == g + Flatten(rest);
      assert ws[..|g|] == g;
      assert ws[|g|..] == Flatten(rest);
      if rest == [] {
        assert Flatten(rest) == [];
      }
      assert forall m :: 1 <= m < |g| ==> ws[..m] == g[..m];
      ChunkClosesAt(ws, size, |g|);
      GroupsUnique(ws[|g|..], size, rest);
    }
  }
}
