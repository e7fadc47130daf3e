/**
 * scripts/prepare_chunks.py: packs the timed segments of one transcript into
 * chunks of at most MaxChunkWords words, greedily and in order.
 *
 * The packing is specified declaratively by IsGreedyPacking, over the ghost
 * list of cut points (the index of the first segment of every chunk); the
 * method ChunkFile is the script's loop and is proved to produce such a
 * packing. The lemmas below derive the script's promises from the
 * specification: words are conserved, the budget holds for chunks of two or
 * more segments, the packing is unique, and an oversized first segment
 * produces an empty chunk 0.
 */
module PrepareChunks {
  import opened Wrappers
  import opened Text
  import opened Lists

  /** MAX_CHUNK_WORDS. */
  const MaxChunkWords: nat := 600

  const TranscriptSuffix: string := "_transcript.json"

  /** One Whisper segment as stored in <video_id>_transcript.json. */
  datatype Segment = Segment(text: string, start: real, end: real)

  datatype TimeRange = TimeRange(start: real, end: real)

  datatype Chunk = Chunk(text: string, videoId: string, timeRange: TimeRange, chunkId: nat)

  /** segments[0] raises IndexError on an empty transcript. */
  datatype ChunkError = NoSegments

  /** The part of s before the first occurrence of sep: s.split(sep)[0]. */
  function BeforeFirst(s: string, sep: string): (r: string)
    requires |sep| > 0
    ensures r <= s
    ensures forall i :: 0 <= i < |r| ==> !(sep <= s[i..])
    ensures |r| < |s| ==> sep <= s[|r|..]
  {
    if sep <= s || |s| == 0 then ""
    else
      var r := [s[0]] + BeforeFirst(s[1..], sep);
      assert forall i :: 1 <= i < |r| ==> s[i..] == s[1..][i - 1..];
      r
  }

  /** file.split('_transcript.json')[0]. */
  function VideoId(fileName: string): string {
    BeforeFirst(fileName, TranscriptSuffix)
  }

  /** A file named <id>_transcript.json yields the video id <id>, provided the
      suffix does not already start inside <id>. */
  lemma VideoIdOfTranscriptName(id: string)
    requires forall i :: 0 <= i < |id| ==> !(TranscriptSuffix <= (id + TranscriptSuffix)[i..])
    ensures VideoId(id + TranscriptSuffix) == id
  {
    var name := id + TranscriptSuffix;
    assert name[|id|..] == TranscriptSuffix;
  }

  /** The script's current_chunk after the segments ss: " " + text, appended
      once per segment. */
  function Joined(ss: seq<Segment>): (r: string)
    ensures |r| >= |ss|
  {
    if |ss| == 0 then "" else Joined(ss[..|ss| - 1]) + (" " + ss[|ss| - 1].text)
  }

  /** The words of all segment texts, in input order. */
  function SegmentWords(ss: seq<Segment>): seq<string> {
    FlatMap((s: Segment) => Words(s.text), ss)
  }

  lemma SegmentWordsSingle(s: Segment)
    ensures SegmentWords([s]) == Words(s.text)
  {
    FlatMapSingle((x: Segment) => Words(x.text), s);
  }

  lemma SegmentWordsAppend(a: seq<Segment>, b: seq<Segment>)
    ensures SegmentWords(a + b) == SegmentWords(a) + SegmentWords(b)
  {
    FlatMapAppend((s: Segment) => Words(s.text), a, b);
  }

  /** current_chunk.split() is the words of the segments it holds. */
  lemma {:induction false} JoinedWords(ss: seq<Segment>)
    ensures Words(Joined(ss)) == SegmentWords(ss)
    decreases |ss|
  {
    if |ss| > 0 {
      JoinedWords(ss[..|ss| - 1]);
      WordsAppendSpaced(Joined(ss[..|ss| - 1]), ss[|ss| - 1].text);
    }
  }

  /** The time range of the chunk holding segs[a..b]; the first chunk can hold
      no segment at all, and then keeps the initial start and end. */
  function RangeOf(segs: seq<Segment>, a: nat, b: nat): TimeRange
    requires 0 < |segs| && a <= b <= |segs|
  {
    if a < b then TimeRange(segs[a].start, segs[b - 1].end) else TimeRange(segs[0].start, 0.0)
  }

  /** The word count the flush test sees before segment j when the current
      chunk holds segs[a..j]. */
  function WordsBefore(segs: seq<Segment>, a: nat, j: nat): nat
    requires a <= j < |segs|
  {
    |SegmentWords(segs[a..j])| + |Words(segs[j].text)|
  }

  /** Chunk k holds exactly segs[cuts[k]..cuts[k + 1]], and only chunk 0 may
      hold no segment at all. */
  ghost predicate ChunkHolds(segs: seq<Segment>, videoId: string, chunks: seq<Chunk>, cuts: seq<nat>, k: nat) {
    && k < |chunks| && k + 1 < |cuts| && 0 < |segs|
    && cuts[k] <= cuts[k + 1] <= |segs|
    && (k > 0 ==> cuts[k] < cuts[k + 1])
    && chunks[k] == Chunk(Strip(Joined(segs[cuts[k]..cuts[k + 1]])), videoId, RangeOf(segs, cuts[k], cuts[k + 1]), k)
  }

  /** Chunk k was closed because the segment after it did not fit. */
  ghost predicate ClosedByFlush(segs: seq<Segment>, cuts: seq<nat>, k: nat) {
    && k + 1 < |cuts|
    && cuts[k] <= cuts[k + 1] < |segs|
    && WordsBefore(segs, cuts[k], cuts[k + 1]) > MaxChunkWords
  }

  /** The test at segment j, with chunk k holding segs[a..j], found room. The
      test at the first segment of a chunk other than chunk 0 is the one that
      closed the chunk before it, so it is not constrained here. */
  ghost predicate FitsAt(segs: seq<Segment>, a: nat, j: nat, k: nat) {
    a <= j < |segs| && (a < j || k == 0) ==> WordsBefore(segs, a, j) <= MaxChunkWords
  }

  /** Every chunk holds its segments. */
  ghost predicate AllHold(segs: seq<Segment>, videoId: string, chunks: seq<Chunk>, cuts: seq<nat>) {
    forall k :: 0 <= k < |chunks| ==> ChunkHolds(segs, videoId, chunks, cuts, k)
  }

  /** Chunks 0 .. m - 1 were closed by a flush. */
  ghost predicate AllFlushed(segs: seq<Segment>, cuts: seq<nat>, m: int) {
    forall k :: 0 <= k < m ==> ClosedByFlush(segs, cuts, k)
  }

  /** Chunks 0 .. m - 1 found room for every segment they hold. */
  ghost predicate AllFit(segs: seq<Segment>, cuts: seq<nat>, m: nat) {
    forall k, j :: 0 <= k < m && k + 1 < |cuts| && cuts[k] <= j < cuts[k + 1] ==> FitsAt(segs, cuts[k], j, k)
  }

  /** Chunk k, filled from segment a, found room for segments a .. i - 1. */
  ghost predicate OpenFits(segs: seq<Segment>, a: nat, i: nat, k: nat) {
    forall j :: a <= j < i ==> FitsAt(segs, a, j, k)
  }

  /** chunks is what the greedy packer makes of segs: cuts[k] is the first
      segment of chunk k, a chunk is closed exactly when the next segment's
      words would take it over MaxChunkWords, and chunk k carries the stripped
      text of its segments, their time range, the video id and the id k. */
  ghost predicate IsGreedyPacking(segs: seq<Segment>, videoId: string, chunks: seq<Chunk>, cuts: seq<nat>) {
    && |segs| > 0
    && |cuts| == |chunks| + 1
    && cuts[0] == 0
    && cuts[|chunks|] == |segs|
    && AllHold(segs, videoId, chunks, cuts)
    && AllFlushed(segs, cuts, |chunks| - 1)
    && AllFit(segs, cuts, |chunks|)
  }

  /** The state of the loop before segment i: the chunks already closed, with
      their cut points, and the chunk being filled, which starts at the last
      cut point and has found room for every segment it holds. */
  ghost predicate LoopState(segs: seq<Segment>, videoId: string, chunks: seq<Chunk>, cuts: seq<nat>, i: nat) {
    && 0 < |segs| && i <= |segs|
    && |cuts| == |chunks| + 1
    && cuts[0] == 0
    && cuts[|chunks|] <= i
    && AllHold(segs, videoId, chunks, cuts)
    && AllFlushed(segs, cuts, |chunks|)
    && AllFit(segs, cuts, |chunks|)
    && OpenFits(segs, cuts[|chunks|], i, |chunks|)
  }

  lemma HoldAppend(segs: seq<Segment>, videoId: string, chunks: seq<Chunk>, cuts: seq<nat>, c: Chunk, n: nat)
    requires |cuts| == |chunks| + 1 && AllHold(segs, videoId, chunks, cuts)
    requires ChunkHolds(segs, videoId, chunks + [c], cuts + [n], |chunks|)
    ensures AllHold(segs, videoId, chunks + [c], cuts + [n])
  {
    forall k | 0 <= k < |chunks| ensures ChunkHolds(segs, videoId, chunks + [c], cuts + [n], k) {
      assert ChunkHolds(segs, videoId, chunks, cuts, k);
      assert (chunks + [c])[k] == chunks[k] && (cuts + [n])[k] == cuts[k] && (cuts + [n])[k + 1] == cuts[k + 1];
    }
  }

  lemma FlushedAppend(segs: seq<Segment>, cuts: seq<nat>, n: nat, m: nat)
    requires m < |cuts| && AllFlushed(segs, cuts, m)
    ensures AllFlushed(segs, cuts + [n], m)
  {
    forall k | 0 <= k < m ensures ClosedByFlush(segs, cuts + [n], k) {
      assert ClosedByFlush(segs, cuts, k);
      assert (cuts + [n])[k] == cuts[k] && (cuts + [n])[k + 1] == cuts[k + 1];
    }
  }

  lemma FitAppend(segs: seq<Segment>, cuts: seq<nat>, n: nat)
    requires |cuts| > 0 && AllFit(segs, cuts, |cuts| - 1)
    requires OpenFits(segs, cuts[|cuts| - 1], n, |cuts| - 1)
    ensures AllFit(segs, cuts + [n], |cuts|)
  {
    var cuts' := cuts + [n];
    forall k, j | 0 <= k < |cuts| && k + 1 < |cuts'| && cuts'[k] <= j < cuts'[k + 1]
      ensures FitsAt(segs, cuts'[k], j, k)
    {
      if k + 1 < |cuts| {
        assert cuts'[k] == cuts[k] && cuts'[k + 1] == cuts[k + 1];
      }
    }
  }

  /** Closing the current chunk before segment i keeps the loop state. */
  lemma CloseChunk(segs: seq<Segment>, videoId: string, chunks: seq<Chunk>, cuts: seq<nat>, i: nat)
    requires LoopState(segs, videoId, chunks, cuts, i) && i < |segs|
    requires |chunks| > 0 ==> cuts[|chunks|] < i
    requires WordsBefore(segs, cuts[|chunks|], i) > MaxChunkWords
    ensures var g := cuts[|chunks|];
      LoopState(segs, videoId, chunks + [Chunk(Strip(Joined(segs[g..i])), videoId, RangeOf(segs, g, i), |chunks|)],
                cuts + [i], i)
  {
    var g := cuts[|chunks|];
    var c := Chunk(Strip(Joined(segs[g..i])), videoId, RangeOf(segs, g, i), |chunks|);
    HoldAppend(segs, videoId, chunks, cuts, c, i);
    FlushedAppend(segs, cuts, i, |chunks|);
    assert ClosedByFlush(segs, cuts + [i], |chunks|);
    FitAppend(segs, cuts, i);
  }

  /** Adding segment i to the chunk being filled, when it fits or the chunk
      has just been opened by a flush, keeps the loop state. */
  lemma ExtendChunk(segs: seq<Segment>, videoId: string, chunks: seq<Chunk>, cuts: seq<nat>, i: nat)
    requires LoopState(segs, videoId, chunks, cuts, i) && i < |segs|
    requires (cuts[|chunks|] == i && |chunks| > 0) || WordsBefore(segs, cuts[|chunks|], i) <= MaxChunkWords
    ensures LoopState(segs, videoId, chunks, cuts, i + 1)
    ensures Joined(segs[cuts[|chunks|]..i + 1]) == Joined(segs[cuts[|chunks|]..i]) + (" " + segs[i].text)
  {
    assert segs[cuts[|chunks|]..i + 1][..i - cuts[|chunks|]] == segs[cuts[|chunks|]..i];
  }

  /** The chunk still open when the segments run out completes the packing. */
  lemma FinishPacking(segs: seq<Segment>, videoId: string, chunks: seq<Chunk>, cuts: seq<nat>)
    requires LoopState(segs, videoId, chunks, cuts, |segs|)
    requires |chunks| > 0 ==> cuts[|chunks|] < |segs|
    ensures var g := cuts[|chunks|];
      IsGreedyPacking(segs, videoId,
                      chunks + [Chunk(Strip(Joined(segs[g..|segs|])), videoId, RangeOf(segs, g, |segs|), |chunks|)],
                      cuts + [|segs|])
  {
    var g := cuts[|chunks|];
    var c := Chunk(Strip(Joined(segs[g..|segs|])), videoId, RangeOf(segs, g, |segs|), |chunks|);
    HoldAppend(segs, videoId, chunks, cuts, c, |segs|);
    FlushedAppend(segs, cuts, |segs|, |chunks|);
    FitAppend(segs, cuts, |segs|);
  }

  /** The variables of the loop before segment i: the loop state, the text
      of the chunk being filled, and its start and end times. */
  ghost predicate Filling(segs: seq<Segment>, videoId: string, chunks: seq<Chunk>, cuts: seq<nat>, i: nat,
                          current: string, currentStart: real, currentEnd: real) {
    && LoopState(segs, videoId, chunks, cuts, i)
    && cuts[|chunks|] < |segs|
    && current == Joined(segs[cuts[|chunks|]..i])
    && currentStart == segs[cuts[|chunks|]].start
    && currentEnd == (if i > 0 then segs[i - 1].end else 0.0)
  }

  /** The flush branch of the loop keeps its variables in step. */
  lemma CloseStep(segs: seq<Segment>, videoId: string, chunks: seq<Chunk>, cuts: seq<nat>, i: nat,
                  current: string, currentStart: real, currentEnd: real)
    requires Filling(segs, videoId, chunks, cuts, i, current, currentStart, currentEnd) && i < |segs|
    requires |chunks| > 0 ==> cuts[|chunks|] < i
    requires |Words(current)| + |Words(segs[i].text)| > MaxChunkWords
    ensures Filling(segs, videoId, chunks + [Chunk(Strip(current), videoId, TimeRange(currentStart, currentEnd), |chunks|)],
                    cuts + [i], i, "", segs[i].start, currentEnd)
  {
    JoinedWords(segs[cuts[|chunks|]..i]);
    CloseChunk(segs, videoId, chunks, cuts, i);
    assert TimeRange(currentStart, currentEnd) == RangeOf(segs, cuts[|chunks|], i);
    assert segs[i..i] == [];
  }

  /** Adding segment i to the current chunk keeps the variables in step. */
  lemma ExtendStep(segs: seq<Segment>, videoId: string, chunks: seq<Chunk>, cuts: seq<nat>, i: nat,
                   current: string, currentStart: real, currentEnd: real)
    requires Filling(segs, videoId, chunks, cuts, i, current, currentStart, currentEnd) && i < |segs|
    requires (cuts[|chunks|] == i && |chunks| > 0) || |Words(current)| + |Words(segs[i].text)| <= MaxChunkWords
    ensures Filling(segs, videoId, chunks, cuts, i + 1, current + (" " + segs[i].text), currentStart, segs[i].end)
  {
    JoinedWords(segs[cuts[|chunks|]..i]);
    ExtendChunk(segs, videoId, chunks, cuts, i);
  }

  /** After the last segment, the chunk still open completes the packing. */
  lemma FinishStep(segs: seq<Segment>, videoId: string, chunks: seq<Chunk>, cuts: seq<nat>,
                   current: string, currentStart: real, currentEnd: real)
    requires Filling(segs, videoId, chunks, cuts, |segs|, current, currentStart, currentEnd)
    ensures current != ""
    ensures IsGreedyPacking(segs, videoId, chunks + [Chunk(Strip(current), videoId, TimeRange(currentStart, currentEnd), |chunks|)],
                            cuts + [|segs|])
  {
    FinishPacking(segs, videoId, chunks, cuts);
    assert TimeRange(currentStart, currentEnd) == RangeOf(segs, cuts[|chunks|], |segs|);
  }

  /** The loop of scripts/prepare_chunks.py for one file named
      <video_id>_transcript.json with the given segments. */
  method ChunkFile(fileName: string, segments: seq<Segment>)
    returns (r: Result<seq<Chunk>, ChunkError>, ghost cuts: seq<nat>)
    requires EndsWith(fileName, TranscriptSuffix)
    ensures r.Err? <==> |segments| == 0
    ensures r.Ok? ==> |r.value| >= 1 && IsGreedyPacking(segments, VideoId(fileName), r.value, cuts)
    ensures r.Ok? ==> forall k :: 0 <= k < |r.value| ==>
      r.value[k].chunkId == k && r.value[k].videoId == VideoId(fileName)
  {
    var videoId := VideoId(fileName);
    if |segments| == 0 {
      return Err(NoSegments), [];
    }
    var chunks: seq<Chunk> := [];
    var current := "";
    var currentStart := segments[0].start;
    var currentEnd: real := 0.0;
    var chunkId: nat := 0;
    cuts := [0];
    var i := 0;
    while i < |segments|
      invariant i <= |segments|
      invariant Filling(segments, videoId, chunks, cuts, i, current, currentStart, currentEnd)
      invariant i > 0 ==> cuts[|chunks|] < i
      invariant |chunks| <= i
      invariant chunkId == |chunks|
    {
      var seg := segments[i];
      var words := Words(seg.text);
      if |Words(current)| + |words| > MaxChunkWords {
        CloseStep(segments, videoId, chunks, cuts, i, current, currentStart, currentEnd);
        chunks := chunks + [Chunk(Strip(current), videoId, TimeRange(currentStart, currentEnd), chunkId)];
        chunkId := chunkId + 1;
        current := "";
        currentStart := seg.start;
        cuts := cuts + [i];
      }
      ExtendStep(segments, videoId, chunks, cuts, i, current, currentStart, currentEnd);
      current := current + (" " + seg.text);
      currentEnd := seg.end;
      i := i + 1;
    }
    FinishStep(segments, videoId, chunks, cuts, current, currentStart, currentEnd);
    if current != "" {
      chunks := chunks + [Chunk(Strip(current), videoId, TimeRange(currentStart, currentEnd), chunkId)];
      cuts := cuts + [|segments|];
    }
    PackingIds(segments, videoId, chunks, cuts);
    return Ok(chunks), cuts;
  }

  lemma PackingIds(segs: seq<Segment>, videoId: string, chunks: seq<Chunk>, cuts: seq<nat>)
    requires IsGreedyPacking(segs, videoId, chunks, cuts)
    ensures forall k :: 0 <= k < |chunks| ==> chunks[k].chunkId == k && chunks[k].videoId == videoId
  {
    forall k | 0 <= k < |chunks| ensures chunks[k].chunkId == k && chunks[k].videoId == videoId {
      assert ChunkHolds(segs, videoId, chunks, cuts, k);
    }
  }

  /** Every cut point but the last lies before the end of the segments, and
      consecutive cut points are ordered. */
  lemma PackingCut(segs: seq<Segment>, videoId: string, chunks: seq<Chunk>, cuts: seq<nat>, m: nat)
    requires IsGreedyPacking(segs, videoId, chunks, cuts) && m <= |chunks|
    ensures cuts[m] <= |segs|
    ensures m < |chunks| ==> cuts[m] < |segs| && cuts[m] <= cuts[m + 1] <= |segs|
    ensures 0 < m < |chunks| ==> cuts[m] < cuts[m + 1]
  {
    if m < |chunks| {
      assert ChunkHolds(segs, videoId, chunks, cuts, m);
      if m > 0 {
        assert ClosedByFlush(segs, cuts, m - 1);
      }
    }
  }

  /** The words of all chunk texts, in chunk order. */
  function ChunkWords(chunks: seq<Chunk>): seq<string> {
    FlatMap((c: Chunk) => Words(c.text), chunks)
  }

  /** The first m chunks hold exactly the words of the segments before cut m. */
  lemma {:induction false} PackingPrefixWords(segs: seq<Segment>, videoId: string, chunks: seq<Chunk>, cuts: seq<nat>, m: nat)
    requires IsGreedyPacking(segs, videoId, chunks, cuts) && m <= |chunks|
    ensures cuts[m] <= |segs| && ChunkWords(chunks[..m]) == SegmentWords(segs[..cuts[m]])
    decreases m
  {
    PackingCut(segs, videoId, chunks, cuts, m);
    if m > 0 {
      var k := m - 1;
      PackingPrefixWords(segs, videoId, chunks, cuts, k);
      ChunkTextWords(segs, videoId, chunks, cuts, k);
      SegmentWordsSplit(segs, cuts[k], cuts[m]);
      assert chunks[..m][..k] == chunks[..k] && chunks[..m][k] == chunks[k];
    }
  }

  /** A chunk's text splits into the words of the segments it holds. */
  lemma ChunkTextWords(segs: seq<Segment>, videoId: string, chunks: seq<Chunk>, cuts: seq<nat>, k: nat)
    requires IsGreedyPacking(segs, videoId, chunks, cuts) && k < |chunks|
    ensures cuts[k] <= cuts[k + 1] <= |segs|
    ensures Words(chunks[k].text) == SegmentWords(segs[cuts[k]..cuts[k + 1]])
  {
    assert ChunkHolds(segs, videoId, chunks, cuts, k);
    var a, b := cuts[k], cuts[k + 1];
    WordsStrip(Joined(segs[a..b]));
    JoinedWords(segs[a..b]);
  }

  lemma SegmentWordsSplit(segs: seq<Segment>, a: nat, b: nat)
    requires a <= b <= |segs|
    ensures SegmentWords(segs[..b]) == SegmentWords(segs[..a]) + SegmentWords(segs[a..b])
  {
    assert segs[..b] == segs[..a] + segs[a..b];
    SegmentWordsAppend(segs[..a], segs[a..b]);
  }

  /** Word conservation: the chunk texts, split on whitespace, give back the
      words of all segment texts in input order. */
  lemma PackingConservesWords(segs: seq<Segment>, videoId: string, chunks: seq<Chunk>, cuts: seq<nat>)
    requires IsGreedyPacking(segs, videoId, chunks, cuts)
    ensures ChunkWords(chunks) == SegmentWords(segs)
  {
    PackingPrefixWords(segs, videoId, chunks, cuts, |chunks|);
    assert chunks[..|chunks|] == chunks;
    assert segs[..|segs|] == segs;
  }

  /** The budget: a chunk has at most MaxChunkWords words unless it holds a
      single segment that alone has more. */
  lemma PackingBudget(segs: seq<Segment>, videoId: string, chunks: seq<Chunk>, cuts: seq<nat>, k: nat)
    requires IsGreedyPacking(segs, videoId, chunks, cuts) && k < |chunks|
    ensures |Words(chunks[k].text)| <= MaxChunkWords
      || (cuts[k] < |segs| && cuts[k + 1] == cuts[k] + 1 && Words(chunks[k].text) == Words(segs[cuts[k]].text)
          && |Words(segs[cuts[k]].text)| > MaxChunkWords)
  {
    assert ChunkHolds(segs, videoId, chunks, cuts, k);
    var a, b := cuts[k], cuts[k + 1];
    WordsStrip(Joined(segs[a..b]));
    JoinedWords(segs[a..b]);
    if a < b {
      var j := b - 1;
      assert segs[a..b][..j - a] == segs[a..j];
      assert FitsAt(segs, a, j, k);
      if a == j {
        assert segs[a..j] == [];
        assert segs[a..b] == [segs[a]];
        SegmentWordsSingle(segs[a]);
      }
    }
  }

  /** Only an oversized first segment makes chunk 0 empty: chunk 0 then has
      the text "" and the range from the first segment's start to 0, and the
      segments go to the later chunks. */
  lemma PackingEmptyFirstChunk(segs: seq<Segment>, videoId: string, chunks: seq<Chunk>, cuts: seq<nat>)
    requires IsGreedyPacking(segs, videoId, chunks, cuts)
    ensures cuts[1] == 0 <==> |Words(segs[0].text)| > MaxChunkWords
    ensures cuts[1] == 0 ==>
      |chunks| >= 2 && chunks[0] == Chunk("", videoId, TimeRange(segs[0].start, 0.0), 0)
  {
    assert ChunkHolds(segs, videoId, chunks, cuts, 0);
    assert segs[0..0] == [];
    if cuts[1] == 0 {
      assert ClosedByFlush(segs, cuts, 0);
    } else {
      assert FitsAt(segs, 0, 0, 0);
    }
  }

  /** The cut points of two packings of the same segments agree. */
  lemma {:induction false} PackingCutsAgree(segs: seq<Segment>, videoId: string,
                                            c1: seq<Chunk>, k1: seq<nat>, c2: seq<Chunk>, k2: seq<nat>, m: nat)
    requires IsGreedyPacking(segs, videoId, c1, k1) && IsGreedyPacking(segs, videoId, c2, k2)
    requires m <= |c1| && m <= |c2|
    ensures k1[m] == k2[m]
    decreases m
  {
    if m > 0 {
      var k := m - 1;
      PackingCutsAgree(segs, videoId, c1, k1, c2, k2, k);
      PackingCut(segs, videoId, c1, k1, k);
      PackingCut(segs, videoId, c2, k2, k);
      PackingStep(segs, videoId, c1, k1, k, k2[m]);
      PackingStep(segs, videoId, c2, k2, k, k1[m]);
    }
  }

  /** What one chunk's end tells about the test at any segment j inside it. */
  lemma PackingStep(segs: seq<Segment>, videoId: string, chunks: seq<Chunk>, cuts: seq<nat>, k: nat, j: nat)
    requires IsGreedyPacking(segs, videoId, chunks, cuts) && k < |chunks|
    ensures cuts[k + 1] < |segs| ==> ClosedByFlush(segs, cuts, k)
    ensures cuts[k] <= j < cuts[k + 1] ==> FitsAt(segs, cuts[k], j, k)
  {
  }

  /** The greedy packing of a transcript is unique: the specification pins
      down the script's output completely. */
  lemma PackingUnique(segs: seq<Segment>, videoId: string,
                      c1: seq<Chunk>, k1: seq<nat>, c2: seq<Chunk>, k2: seq<nat>)
    requires IsGreedyPacking(segs, videoId, c1, k1) && IsGreedyPacking(segs, videoId, c2, k2)
    ensures c1 == c2 && k1 == k2
  {
    var n := if |c1| < |c2| then |c1| else |c2|;
    PackingCutsAgree(segs, videoId, c1, k1, c2, k2, n);
    PackingCut(segs, videoId, c1, k1, n);
    PackingCut(segs, videoId, c2, k2, n);
    forall m | 0 <= m <= |c1| ensures k1[m] == k2[m] {
      PackingCutsAgree(segs, videoId, c1, k1, c2, k2, m);
    }
    forall k | 0 <= k < |c1| ensures c1[k] == c2[k] {
      assert ChunkHolds(segs, videoId, c1, k1, k) && ChunkHolds(segs, videoId, c2, k2, k);
    }
  }
}
