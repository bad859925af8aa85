/** PDF ingestion: every document's text is cut into overlapping windows of
    `ChunkSize` characters whose starts advance by `ChunkSize - ChunkOverlap`,
    and each chunk is tagged with the basename of the file it came from.

    Reading the directory and extracting the text of the PDF pages are file
    I/O and are not modelled: the documents arrive as (path, text) pairs in
    the order the directory listing returned them. */
module Ingest {
  import opened Windows
  import opened Text

  const ChunkSize: nat := 1000
  const ChunkOverlap: nat := 200

  /** One listed PDF file with its extracted text, the pages concatenated. */
  datatype Document = Document(path: string, text: string)

  /** The in-memory corpus: chunk texts and the parallel list of the file each
      chunk came from. */
  datatype Corpus = Corpus(chunks: seq<string>, docNames: seq<string>) {
    predicate Aligned() {
      |chunks| == |docNames|
    }
  }

  /** The sliding-window loop over one document's text, as a loop: windows of
      `size` characters starting at 0, `size - overlap`, ... while the start is
      inside the text. Returns the chunks together with their start offsets. */
  method ChunkLoop(text: string, size: nat, overlap: nat) returns (chunks: seq<string>, starts: seq<nat>)
    requires ValidParams(size, overlap)
    ensures |chunks| == |starts| == WindowCount(|text|, size - overlap)
    ensures forall i :: 0 <= i < |starts| ==> starts[i] == i * (size - overlap) && starts[i] < |text|
    ensures forall i :: 0 <= i < |chunks| ==>
              chunks[i] == text[starts[i] .. Min(starts[i] + size, |text|)]
  {
    var stride := size - overlap;
    chunks, starts := [], [];
    var start := 0;
    while start < |text|
      invariant |chunks| == |starts|
      invariant start == |chunks| * stride
      invariant |chunks| == 0 || (|chunks| - 1) * stride < |text|
      invariant forall i :: 0 <= i < |starts| ==> starts[i] == i * stride && starts[i] < |text|
      invariant forall i :: 0 <= i < |chunks| ==>
                  chunks[i] == text[starts[i] .. Min(starts[i] + size, |text|)]
      decreases |text| - start
    {
      var end := Min(start + size, |text|);
      MulSucc(|chunks|, stride);
      chunks := chunks + [text[start .. end]];
      starts := starts + [start];
      start := start + stride;
    }
    WindowCountOfLoopExit(|text|, stride, |chunks|);
  }

  /** On loop exit `c * stride >= n` and, if any chunk was taken, the last start
      `(c - 1) * stride` was inside: `c` is the ceiling of `n / stride`. */
  lemma WindowCountOfLoopExit(n: nat, stride: nat, c: nat)
    requires 0 < stride
    requires c * stride >= n
    requires c == 0 || (c - 1) * stride < n
    ensures c == WindowCount(n, stride)
  {
    var w := WindowCount(n, stride);
    WindowCountIsCeiling(n, stride);
    if c < w {
      MulMonotone(c, w - 1, stride);
    } else if c > w {
      MulMonotone(w, c - 1, stride);
    }
  }

  /** The chunks of one document at the source's 1000/200 setting. */
  function ChunkText(text: string): (chunks: seq<string>)
    ensures |chunks| == WindowCount(|text|, ChunkSize - ChunkOverlap)
  {
    Slide(text, ChunkSize, ChunkOverlap)
  }

  /** The chunks in closed form: the i-th chunk is `text[800 * i : 800 * i + 1000]`
      (its start inside the text) and there are ceil(len / 800) of them. */
  lemma ChunkTextClosedForm(text: string)
    ensures |ChunkText(text)| == (|text| + 799) / 800
    ensures forall i :: 0 <= i < |ChunkText(text)| ==>
              800 * i < |text| && ChunkText(text)[i] == text[800 * i .. Min(800 * i + 1000, |text|)]
  {
    SlideShape(text, ChunkSize, ChunkOverlap);
    SlideCount(text, ChunkSize, ChunkOverlap);
  }

  /** The loop and the recursive windowing produce the same chunks. */
  method ChunkDocument(text: string) returns (chunks: seq<string>)
    ensures chunks == ChunkText(text)
  {
    var starts;
    chunks, starts := ChunkLoop(text, ChunkSize, ChunkOverlap);
    var ws := ChunkText(text);
    SlideCount(text, ChunkSize, ChunkOverlap);
    WindowCountIsCeiling(|text|, ChunkSize - ChunkOverlap);
    forall i | 0 <= i < |ws|
      ensures chunks[i] == ws[i]
    {
      SlideStarts(text, ChunkSize, ChunkOverlap, i);
    }
  }

  /** A text of 801 to 1000 characters yields two chunks: the whole text, and
      its suffix from offset 800. */
  lemma TwoChunksJustOverOneStride(text: string)
    requires 800 < |text| <= 1000
    ensures ChunkText(text) == [text, text[800..]]
  {
    ChunkTextClosedForm(text);
    DivisionUnique(|text| + 799, 800, 2, |text| + 799 - 1600);
    var cs := ChunkText(text);
    assert |cs| == 2;
    assert cs[0] == text[800 * 0 .. Min(800 * 0 + 1000, |text|)];
    assert cs[1] == text[800 * 1 .. Min(800 * 1 + 1000, |text|)];
    assert cs[0] == text;
    assert cs[1] == text[800..];
    assert cs == [cs[0], cs[1]];
  }

  /** With the source's setting at most the last two chunks are shorter than
      `ChunkSize`. */
  lemma AtMostTwoShortChunks(text: string, i: nat)
    requires i < |ChunkText(text)|
    requires |ChunkText(text)[i]| < ChunkSize
    ensures i + 2 >= |ChunkText(text)|
  {
    SlideShortWindowsTrail(text, ChunkSize, ChunkOverlap, i, i);
  }

  lemma IndexBeforeSuffix<T>(a: seq<T>, b: seq<T>, k: nat)
    requires k < |a|
    ensures (a + b)[k] == a[k]
  {
  }

  lemma IndexAfterPrefix<T>(a: seq<T>, b: seq<T>, k: nat)
    requires k < |b|
    ensures (a + b)[|a| + k] == b[k]
  {
  }

  lemma PairOf<T>(s: seq<T>, a: T, b: T)
    requires |s| == 2 && s[0] == a && s[1] == b
    ensures s == [a, b]
  {
  }

  function Repeat(x: string, n: nat): (r: seq<string>)
    ensures |r| == n && forall i :: 0 <= i < n ==> r[i] == x
  {
    seq(n, _ => x)
  }

  /** The loop of `load_and_chunk_pdfs` over the listed files with a given
      per-text chunker: each file's chunks, in listing order, each paired with
      the basename of the file. */
  function ChunkAll(docs: seq<Document>, chunk: string -> seq<string>): (c: Corpus)
    decreases |docs|
    ensures c.Aligned()
  {
    if |docs| == 0 then Corpus([], [])
    else
      var own := chunk(docs[0].text);
      var rest := ChunkAll(docs[1..], chunk);
      Corpus(own + rest.chunks, Repeat(Basename(docs[0].path), |own|) + rest.docNames)
  }

  /** `load_and_chunk_pdfs`: every file cut into 1000-character chunks
      overlapping by 200. The chunk and metadata lists have equal length. */
  function LoadAndChunk(docs: seq<Document>): (c: Corpus)
    ensures c.Aligned()
  {
    ChunkAll(docs, ChunkText)
  }

  /** `name` is the basename of one of the listed files. */
  predicate IsDocumentName(docs: seq<Document>, name: string) {
    exists j :: 0 <= j < |docs| && name == Basename(docs[j].path)
  }

  /** Where the chunks of document `j` begin in the corpus. */
  function ChunkOffset(docs: seq<Document>, chunk: string -> seq<string>, j: nat): nat
    requires j <= |docs|
    decreases j
  {
    if j == 0 then 0 else |chunk(docs[0].text)| + ChunkOffset(docs[1..], chunk, j - 1)
  }

  lemma ChunkAllUnfold(docs: seq<Document>, chunk: string -> seq<string>)
    requires |docs| > 0
    ensures ChunkAll(docs, chunk).chunks == chunk(docs[0].text) + ChunkAll(docs[1..], chunk).chunks
    ensures ChunkAll(docs, chunk).docNames
              == Repeat(Basename(docs[0].path), |chunk(docs[0].text)|) + ChunkAll(docs[1..], chunk).docNames
  {
  }

  lemma {:induction false} ChunkAllNames(docs: seq<Document>, chunk: string -> seq<string>)
    decreases |docs|
    ensures forall i :: 0 <= i < |ChunkAll(docs, chunk).docNames| ==>
              IsDocumentName(docs, ChunkAll(docs, chunk).docNames[i])
  {
    if |docs| > 0 {
      var c := ChunkAll(docs, chunk);
      var own := chunk(docs[0].text);
      var rest := ChunkAll(docs[1..], chunk);
      ChunkAllUnfold(docs, chunk);
      ChunkAllNames(docs[1..], chunk);
      forall i | 0 <= i < |c.docNames|
        ensures IsDocumentName(docs, c.docNames[i])
      {
        if i < |own| {
          assert c.docNames[i] == Basename(docs[0].path);
        } else {
          assert c.docNames[i] == rest.docNames[i - |own|];
          var j :| 0 <= j < |docs| - 1 && rest.docNames[i - |own|] == Basename(docs[1..][j].path);
          assert docs[1..][j] == docs[j + 1];
        }
      }
    }
  }

  lemma ChunkOffsetShift(docs: seq<Document>, chunk: string -> seq<string>, j: nat)
    requires 0 < j < |docs|
    ensures docs[1..][j - 1] == docs[j]
    ensures ChunkOffset(docs, chunk, j) == |chunk(docs[0].text)| + ChunkOffset(docs[1..], chunk, j - 1)
  {
  }

  /** Chunk `i` of document `j` is at `ChunkOffset(docs, chunk, j) + i` in the
      corpus, tagged with the basename of document `j`'s path. */
  lemma {:induction false} ChunkAllChunkAt(docs: seq<Document>, chunk: string -> seq<string>, j: nat, i: nat)
    requires j < |docs|
    requires i < |chunk(docs[j].text)|
    decreases j
    ensures ChunkOffset(docs, chunk, j) + i < |ChunkAll(docs, chunk).chunks|
    ensures ChunkAll(docs, chunk).chunks[ChunkOffset(docs, chunk, j) + i] == chunk(docs[j].text)[i]
    ensures ChunkAll(docs, chunk).docNames[ChunkOffset(docs, chunk, j) + i] == Basename(docs[j].path)
  {
    var own0 := chunk(docs[0].text);
    var names0 := Repeat(Basename(docs[0].path), |own0|);
    var rest := ChunkAll(docs[1..], chunk);
    ChunkAllUnfold(docs, chunk);
    if j == 0 {
      IndexBeforeSuffix(own0, rest.chunks, i);
      IndexBeforeSuffix(names0, rest.docNames, i);
    } else {
      var off' := ChunkOffset(docs[1..], chunk, j - 1);
      ChunkOffsetShift(docs, chunk, j);
      ChunkAllChunkAt(docs[1..], chunk, j - 1, i);
      IndexAfterPrefix(own0, rest.chunks, off' + i);
      IndexAfterPrefix(names0, rest.docNames, off' + i);
    }
  }

  lemma {:induction false} ChunkOffsetNext(docs: seq<Document>, chunk: string -> seq<string>, j: nat)
    requires j < |docs|
    decreases j
    ensures ChunkOffset(docs, chunk, j + 1) == ChunkOffset(docs, chunk, j) + |chunk(docs[j].text)|
  {
    if j > 0 {
      assert docs[1..][j - 1] == docs[j];
      ChunkOffsetNext(docs[1..], chunk, j - 1);
    }
  }

  lemma {:induction false} OffsetsIncrease(docs: seq<Document>, chunk: string -> seq<string>, j: nat, k: nat)
    requires j <= k <= |docs|
    decreases k - j
    ensures ChunkOffset(docs, chunk, j) <= ChunkOffset(docs, chunk, k)
  {
    if j < k {
      ChunkOffsetNext(docs, chunk, j);
      OffsetsIncrease(docs, chunk, j + 1, k);
    }
  }

  lemma {:induction false} ChunkAllSize(docs: seq<Document>, chunk: string -> seq<string>)
    decreases |docs|
    ensures |ChunkAll(docs, chunk).chunks| == ChunkOffset(docs, chunk, |docs|)
  {
    if |docs| > 0 {
      ChunkAllUnfold(docs, chunk);
      ChunkAllSize(docs[1..], chunk);
      assert ChunkOffset(docs, chunk, |docs|) == |chunk(docs[0].text)| + ChunkOffset(docs[1..], chunk, |docs| - 1);
    }
  }

  /** When every document yields exactly one chunk, document `j`'s chunk is at index `j`. */
  lemma {:induction false} SingletonOffsets(docs: seq<Document>, chunk: string -> seq<string>, j: nat)
    requires j <= |docs|
    requires forall k :: 0 <= k < |docs| ==> |chunk(docs[k].text)| == 1
    decreases j
    ensures ChunkOffset(docs, chunk, j) == j
  {
    if j > 0 {
      SingletonOffsets(docs, chunk, j - 1);
      ChunkOffsetNext(docs, chunk, j - 1);
    }
  }

  /** The chunker keeps `text` whole, as a single chunk. */
  predicate KeepsWhole(chunk: string -> seq<string>, text: string) {
    chunk(text) == [text]
  }

  lemma ChunkAllWholeTexts(docs: seq<Document>, chunk: string -> seq<string>)
    requires forall k :: 0 <= k < |docs| ==> KeepsWhole(chunk, docs[k].text)
    ensures |ChunkAll(docs, chunk).chunks| == |docs|
    ensures forall j :: 0 <= j < |docs| ==>
              ChunkAll(docs, chunk).chunks[j] == docs[j].text
              && ChunkAll(docs, chunk).docNames[j] == Basename(docs[j].path)
  {
    SingletonOffsets(docs, chunk, |docs|);
    ChunkAllSize(docs, chunk);
    forall j | 0 <= j < |docs|
      ensures ChunkAll(docs, chunk).chunks[j] == docs[j].text
      ensures ChunkAll(docs, chunk).docNames[j] == Basename(docs[j].path)
    {
      SingletonOffsets(docs, chunk, j);
      ChunkAllChunkAt(docs, chunk, j, 0);
    }
  }

  /** One file's chunks are contiguous and in listing order, whatever the
      per-text chunker (`LoadAndChunk` is the instance with `ChunkText`):
      document `j`'s chunks fit inside the corpus from `ChunkOffset(docs, chunk, j)`
      on, document `j + 1`'s chunks begin right after them, and the corpus ends
      where a document after the last one would begin. Together with
      `ChunkAllChunkAt` this places every chunk of every file. */
  lemma DocumentChunksContiguous(docs: seq<Document>, chunk: string -> seq<string>, j: nat)
    requires j < |docs|
    ensures ChunkOffset(docs, chunk, j) + |chunk(docs[j].text)| <= |ChunkAll(docs, chunk).chunks|
    ensures ChunkOffset(docs, chunk, j + 1) == ChunkOffset(docs, chunk, j) + |chunk(docs[j].text)|
    ensures |ChunkAll(docs, chunk).chunks| == ChunkOffset(docs, chunk, |docs|)
  {
    ChunkOffsetNext(docs, chunk, j);
    ChunkAllSize(docs, chunk);
    OffsetsIncrease(docs, chunk, j + 1, |docs|);
  }

  /** Every metadata entry names one of the listed files. */
  lemma CorpusNamesAreDocumentNames(docs: seq<Document>)
    ensures forall i :: 0 <= i < |LoadAndChunk(docs).docNames| ==>
              IsDocumentName(docs, LoadAndChunk(docs).docNames[i])
  {
    ChunkAllNames(docs, ChunkText);
  }

  /** Files whose text is non-empty and fits in one stride contribute one
      chunk each: the whole text, tagged with the file's basename. */
  lemma SmallFilesOneChunkEach(docs: seq<Document>)
    requires forall j :: 0 <= j < |docs| ==> 0 < |docs[j].text| <= ChunkSize - ChunkOverlap
    ensures |LoadAndChunk(docs).chunks| == |docs|
    ensures forall j :: 0 <= j < |docs| ==>
              LoadAndChunk(docs).chunks[j] == docs[j].text
              && LoadAndChunk(docs).docNames[j] == Basename(docs[j].path)
  {
    forall j | 0 <= j < |docs|
      ensures KeepsWhole(ChunkText, docs[j].text)
    {
      SlideShortInput(docs[j].text, ChunkSize, ChunkOverlap);
    }
    ChunkAllWholeTexts(docs, ChunkText);
  }

  /** Two files that each make a single chunk, the whole text, and whose
      paths are plain file names: the corpus holds the two texts and names
      each file once, in listing order. */
  lemma TwoSmallFilesOneChunkEach(p1: string, t1: string, p2: string, t2: string, chunk: string -> seq<string>)
    requires KeepsWhole(chunk, t1) && KeepsWhole(chunk, t2)
    requires '/' !in p1 && '/' !in p2
    ensures ChunkAll([Document(p1, t1), Document(p2, t2)], chunk).chunks == [t1, t2]
    ensures ChunkAll([Document(p1, t1), Document(p2, t2)], chunk).docNames == [p1, p2]
  {
    var docs := [Document(p1, t1), Document(p2, t2)];
    var c := ChunkAll(docs, chunk);
    assert docs[0] == Document(p1, t1) && docs[1] == Document(p2, t2);
    ChunkAllWholeTexts(docs, chunk);
    BasenameOfPlainName(p1);
    BasenameOfPlainName(p2);
    PairOf(c.chunks, t1, t2);
    PairOf(c.docNames, p1, p2);
  }

  /** The two-file fixture of the repository's chunking test: both files hold
      the 22-character text of two pages, which fits in one chunk, so the
      metadata names each file once. */
  lemma ChunkingTestFixture()
    ensures var text := "Page 1 text" + "Page 2 text";
            LoadAndChunk([Document("file1.pdf", text), Document("file2.pdf", text)]).docNames
              == ["file1.pdf", "file2.pdf"]
  {
    var text := "Page 1 text" + "Page 2 text";
    SlideShortInput(text, ChunkSize, ChunkOverlap);
    TwoSmallFilesOneChunkEach("file1.pdf", text, "file2.pdf", text, ChunkText);
  }
}
