/** How `process_in_chunks` divides the dictionary file among the ranks: the
    nominal byte range of each rank, the overlap read past it, and the range a
    rank keeps after moving both ends to line boundaries. Offsets are absolute
    positions in the file. */
module Partition {
  import opened Words

  /** `filesize / proc_cnt`: bytes per rank before the overlap. */
  function ChunkSize(fileSize: nat, procCnt: nat): nat
    requires procCnt >= 1
  {
    fileSize / procCnt
  }

  /** First byte of the rank's range (`globalstart`): `F/N` bytes past the
      previous rank's start, that is `rank * (F/N)` (see `GlobalStartIsProduct`). */
  function GlobalStart(fileSize: nat, procCnt: nat, rank: nat): nat
    requires procCnt >= 1
  {
    if rank == 0 then 0 else GlobalStart(fileSize, procCnt, rank - 1) + ChunkSize(fileSize, procCnt)
  }

  /** The start offset is the product the code computes. */
  lemma {:induction false} GlobalStartIsProduct(fileSize: nat, procCnt: nat, rank: nat)
    requires procCnt >= 1
    ensures GlobalStart(fileSize, procCnt, rank) == rank * ChunkSize(fileSize, procCnt)
  {
    if rank > 0 {
      GlobalStartIsProduct(fileSize, procCnt, rank - 1);
      var c := ChunkSize(fileSize, procCnt);
      assert rank * c == (rank - 1) * c + c;
    }
  }

  /** Last byte of the rank's nominal range, before the overlap is added. */
  function NominalEnd(fileSize: nat, procCnt: nat, rank: nat): int
    requires procCnt >= 1
  {
    if rank == procCnt - 1 then fileSize - 1
    else GlobalStart(fileSize, procCnt, rank) + ChunkSize(fileSize, procCnt) - 1
  }

  /** Last byte read (`globalend`): every rank but the last reads `delta` more. */
  function GlobalEnd(fileSize: nat, procCnt: nat, rank: nat, delta: nat): int
    requires procCnt >= 1
  {
    if rank != procCnt - 1 then NominalEnd(fileSize, procCnt, rank) + delta
    else NominalEnd(fileSize, procCnt, rank)
  }

  /** Number of bytes read, the second `chunk_size`. */
  function ReadLength(fileSize: nat, procCnt: nat, rank: nat, delta: nat): int
    requires procCnt >= 1
  {
    GlobalEnd(fileSize, procCnt, rank, delta) - GlobalStart(fileSize, procCnt, rank) + 1
  }

  /** Rank r's nominal range lies inside the file and ends right before rank
      r+1's begins; rank 0 starts at byte 0, the last rank ends at the last byte
      of the file; every rank but the last reads `F/N + delta` bytes, the last one
      reads the rest of the file. */
  lemma NominalRange(fileSize: nat, procCnt: nat, delta: nat, r: nat)
    requires procCnt >= 1 && r < procCnt
    ensures r == 0 ==> GlobalStart(fileSize, procCnt, r) == 0
    ensures 0 <= GlobalStart(fileSize, procCnt, r) <= NominalEnd(fileSize, procCnt, r) + 1 <= fileSize
    ensures r == procCnt - 1 ==> NominalEnd(fileSize, procCnt, r) == fileSize - 1
    ensures r < procCnt - 1 ==> NominalEnd(fileSize, procCnt, r) + 1 == GlobalStart(fileSize, procCnt, r + 1)
    ensures r < procCnt - 1 ==> ReadLength(fileSize, procCnt, r, delta) == ChunkSize(fileSize, procCnt) + delta
    ensures r == procCnt - 1 ==>
      ReadLength(fileSize, procCnt, r, delta) == fileSize - GlobalStart(fileSize, procCnt, r)
  {
    var c := ChunkSize(fileSize, procCnt);
    assert procCnt * c <= fileSize;
    GlobalStartIsProduct(fileSize, procCnt, r + 1);
    MulMonotone(r + 1, procCnt, c);
  }

  /** The nominal ranges of ranks 0..N-1 are adjacent, start at byte 0 and end at
      the last byte of the file; every rank but the last reads `F/N + delta`
      bytes, the last one reads the rest of the file. */
  lemma NominalPartition(fileSize: nat, procCnt: nat, delta: nat)
    requires procCnt >= 1
    ensures GlobalStart(fileSize, procCnt, 0) == 0
    ensures NominalEnd(fileSize, procCnt, procCnt - 1) == fileSize - 1
    ensures forall r :: 0 <= r < procCnt - 1 ==>
      NominalEnd(fileSize, procCnt, r) + 1 == GlobalStart(fileSize, procCnt, r + 1)
    ensures forall r :: 0 <= r < procCnt ==>
      0 <= GlobalStart(fileSize, procCnt, r) <= NominalEnd(fileSize, procCnt, r) + 1 <= fileSize
    ensures forall r :: 0 <= r < procCnt - 1 ==>
      ReadLength(fileSize, procCnt, r, delta) == ChunkSize(fileSize, procCnt) + delta
    ensures ReadLength(fileSize, procCnt, procCnt - 1, delta)
      == fileSize - GlobalStart(fileSize, procCnt, procCnt - 1)
  {
    NominalRange(fileSize, procCnt, delta, procCnt - 1);
    forall r | 0 <= r < procCnt
      ensures 0 <= GlobalStart(fileSize, procCnt, r) <= NominalEnd(fileSize, procCnt, r) + 1 <= fileSize
      ensures r < procCnt - 1 ==> NominalEnd(fileSize, procCnt, r) + 1 == GlobalStart(fileSize, procCnt, r + 1)
      ensures r < procCnt - 1 ==> ReadLength(fileSize, procCnt, r, delta) == ChunkSize(fileSize, procCnt) + delta
    {
      NominalRange(fileSize, procCnt, delta, r);
    }
  }

  lemma PrefixSplit(s: seq<char>, e: nat, e': nat)
    requires e <= e' <= |s|
    ensures s[..e] + s[e..e'] == s[..e']
  {
  }

  /** Every rank but rank 0 starts at or after byte `F/N`. */
  lemma LaterRanksStartPastZero(fileSize: nat, procCnt: nat, rank: nat)
    requires procCnt >= 1 && 1 <= rank
    ensures GlobalStart(fileSize, procCnt, rank) >= ChunkSize(fileSize, procCnt)
  {
  }

  lemma MulMonotone(a: nat, b: nat, c: nat)
    requires a <= b
    ensures a * c <= b * c
  {
  }

  // ---------------------------------------------------------------------
  // The ranges kept after trimming.

  /** Largest value of a C `int`: the type of `locstart`, `locend`, `i` and the
      count passed to the read. */
  const IntMax: int := 0x7FFF_FFFF

  /** The rank's offsets into its buffer fit in an `int`: the number of bytes it
      reads, and the position two past its last byte that the word loop's `i`
      can reach. */
  predicate ReadFitsInt(fileSize: nat, procCnt: nat, rank: nat, delta: nat)
    requires procCnt >= 1
  {
    ReadLength(fileSize, procCnt, rank, delta) + 1 <= IntMax
  }

  /** What rank `rank` needs of the file for its trimming loops to stop inside
      the bytes it read: a rank other than the last reads at least one nominal
      byte, and the first '\n' at or after its nominal end lies in the file and
      before the end of its overlap; a last rank other than rank 0 finds a '\n'
      in its range. */
  predicate RankReadable(file: seq<char>, procCnt: nat, rank: nat, delta: nat)
  {
    && procCnt >= 1
    && rank < procCnt
    && (rank != procCnt - 1 ==>
          && ChunkSize(|file|, procCnt) >= 1
          && 0 <= NominalEnd(|file|, procCnt, rank) < |file|
          && NextNewline(file, NominalEnd(|file|, procCnt, rank)) < |file|
          && NextNewline(file, NominalEnd(|file|, procCnt, rank)) <= GlobalEnd(|file|, procCnt, rank, delta))
    && (rank != 0 && rank == procCnt - 1 ==>
          && GlobalStart(|file|, procCnt, rank) <= |file|
          && NextNewline(file, GlobalStart(|file|, procCnt, rank)) < |file|)
  }

  /** Every rank of the job can trim its range. */
  predicate JobReadable(file: seq<char>, procCnt: nat, delta: nat)
  {
    procCnt >= 1 && forall r :: 0 <= r < procCnt ==> RankReadable(file, procCnt, r, delta)
  }

  /** No rank's nominal end byte is itself a '\n'. */
  ghost predicate NoNewlineAtNominalEnds(file: seq<char>, procCnt: nat)
    requires procCnt >= 1
  {
    forall r :: 0 <= r < procCnt - 1 && 0 <= NominalEnd(|file|, procCnt, r) < |file| ==>
      file[NominalEnd(|file|, procCnt, r)] != '\n'
  }

  /** First byte kept (`globalstart + locstart`): rank 0 keeps byte 0, every other
      rank starts one past the first '\n' of its range. */
  function OwnedStart(file: seq<char>, procCnt: nat, delta: nat, rank: nat): nat
    requires RankReadable(file, procCnt, rank, delta)
  {
    if rank == 0 then 0
    else NextNewline(file, GlobalStart(|file|, procCnt, rank)) + 1
  }

  /** Last byte kept (`globalstart + locend`): the last rank keeps up to the end of
      the file, every other rank up to the first '\n' at or after its nominal end. */
  function OwnedEnd(file: seq<char>, procCnt: nat, delta: nat, rank: nat): int
    requires RankReadable(file, procCnt, rank, delta)
  {
    if rank == procCnt - 1 then |file| - 1
    else NextNewline(file, NominalEnd(|file|, procCnt, rank))
  }

  /** The kept range lies inside the bytes the rank read, the overlap included;
      every rank but the last keeps a range that ends with a '\n', and every rank
      but rank 0 keeps one that starts right after a '\n'. */
  lemma OwnedBounds(file: seq<char>, procCnt: nat, delta: nat, rank: nat)
    requires RankReadable(file, procCnt, rank, delta)
    ensures GlobalStart(|file|, procCnt, rank) <= OwnedStart(file, procCnt, delta, rank)
    ensures OwnedStart(file, procCnt, delta, rank) <= OwnedEnd(file, procCnt, delta, rank) + 1 <= |file|
    ensures OwnedEnd(file, procCnt, delta, rank) <= GlobalEnd(|file|, procCnt, rank, delta)
    ensures rank != procCnt - 1 ==> file[OwnedEnd(file, procCnt, delta, rank)] == '\n'
    ensures rank != 0 ==> file[OwnedStart(file, procCnt, delta, rank) - 1] == '\n'
  {
    NominalRange(|file|, procCnt, delta, rank);
    var gs := GlobalStart(|file|, procCnt, rank);
    if rank != procCnt - 1 && rank != 0 {
      NextNewlineBefore(file, gs, NextNewline(file, NominalEnd(|file|, procCnt, rank)));
    }
  }


  /** The bytes rank `rank` scans. */
  function Owned(file: seq<char>, procCnt: nat, delta: nat, rank: nat): seq<char>
    requires RankReadable(file, procCnt, rank, delta)
  {
    OwnedBounds(file, procCnt, delta, rank);
    file[OwnedStart(file, procCnt, delta, rank)..OwnedEnd(file, procCnt, delta, rank) + 1]
  }

  /** Two neighbouring ranks never share a byte, and rank r's kept range ends
      right before rank r+1's begins exactly when the byte at rank r's nominal
      end is not a '\n'. */
  lemma {:induction false} AdjacentRanks(file: seq<char>, procCnt: nat, delta: nat, r: nat)
    requires JobReadable(file, procCnt, delta) && r + 1 < procCnt
    ensures RankReadable(file, procCnt, r, delta) && RankReadable(file, procCnt, r + 1, delta)
    ensures 0 <= NominalEnd(|file|, procCnt, r) < |file|
    ensures GlobalStart(|file|, procCnt, r + 1) == NominalEnd(|file|, procCnt, r) + 1
    ensures OwnedEnd(file, procCnt, delta, r) < OwnedStart(file, procCnt, delta, r + 1)
    ensures OwnedEnd(file, procCnt, delta, r) + 1 == OwnedStart(file, procCnt, delta, r + 1)
      <==> file[NominalEnd(|file|, procCnt, r)] != '\n'
  {
    assert RankReadable(file, procCnt, r, delta) && RankReadable(file, procCnt, r + 1, delta);
    NominalRange(|file|, procCnt, delta, r);
    NominalRange(|file|, procCnt, delta, r + 1);
    OwnedBounds(file, procCnt, delta, r);
    var ne := NominalEnd(|file|, procCnt, r);
    assert GlobalStart(|file|, procCnt, r + 1) == ne + 1;
    if file[ne] != '\n' {
      NextNewlineSkips(file, ne);
      NextNewlineAt(file, ne + 1, NextNewline(file, ne));
    }
  }

  /** Kept ranges come in rank order: a lower rank's range lies wholly before a
      higher rank's, so no byte is ever kept by two ranks. */
  lemma {:induction false} RanksOrdered(file: seq<char>, procCnt: nat, delta: nat, lo: nat, hi: nat)
    requires JobReadable(file, procCnt, delta) && lo < hi < procCnt
    ensures RankReadable(file, procCnt, lo, delta) && RankReadable(file, procCnt, hi, delta)
    ensures OwnedEnd(file, procCnt, delta, lo) < OwnedStart(file, procCnt, delta, hi)
    ensures OwnedStart(file, procCnt, delta, lo) <= OwnedStart(file, procCnt, delta, hi)
    ensures OwnedEnd(file, procCnt, delta, lo) <= OwnedEnd(file, procCnt, delta, hi)
    decreases hi - lo
  {
    AdjacentApart(file, procCnt, delta, lo);
    if lo + 1 < hi {
      RanksOrdered(file, procCnt, delta, lo + 1, hi);
    }
  }

  /** Rank r's range ends before rank r+1's starts, and both ranges are in order. */
  lemma AdjacentApart(file: seq<char>, procCnt: nat, delta: nat, r: nat)
    requires JobReadable(file, procCnt, delta) && r + 1 < procCnt
    ensures RankReadable(file, procCnt, r, delta) && RankReadable(file, procCnt, r + 1, delta)
    ensures OwnedEnd(file, procCnt, delta, r) < OwnedStart(file, procCnt, delta, r + 1)
    ensures OwnedStart(file, procCnt, delta, r) <= OwnedStart(file, procCnt, delta, r + 1)
    ensures OwnedEnd(file, procCnt, delta, r) <= OwnedEnd(file, procCnt, delta, r + 1)
  {
    AdjacentRanks(file, procCnt, delta, r);
    OwnedBounds(file, procCnt, delta, r);
    OwnedBounds(file, procCnt, delta, r + 1);
  }

  /** Rank ranges 0..k-1, concatenated in rank order. */
  function OwnedPrefix(file: seq<char>, procCnt: nat, delta: nat, k: nat): seq<char>
    requires JobReadable(file, procCnt, delta) && k <= procCnt
  {
    if k == 0 then []
    else
      assert RankReadable(file, procCnt, k - 1, delta);
      OwnedPrefix(file, procCnt, delta, k - 1) + Owned(file, procCnt, delta, k - 1)
  }

  lemma {:induction false} OwnedPrefixIsFilePrefix(file: seq<char>, procCnt: nat, delta: nat, k: nat)
    requires JobReadable(file, procCnt, delta) && NoNewlineAtNominalEnds(file, procCnt)
    requires 1 <= k <= procCnt
    ensures RankReadable(file, procCnt, k - 1, delta)
    ensures 0 <= OwnedEnd(file, procCnt, delta, k - 1) + 1 <= |file|
    ensures OwnedPrefix(file, procCnt, delta, k) == file[..OwnedEnd(file, procCnt, delta, k - 1) + 1]
  {
    if k == 1 {
      FirstOwnedPrefix(file, procCnt, delta);
    } else {
      OwnedPrefixIsFilePrefix(file, procCnt, delta, k - 1);
      NominalRange(|file|, procCnt, delta, k - 2);
      NominalRange(|file|, procCnt, delta, k - 1);
      OwnedPrefixStep(file, procCnt, delta, k);
    }
  }

  lemma FirstOwnedPrefix(file: seq<char>, procCnt: nat, delta: nat)
    requires JobReadable(file, procCnt, delta) && 1 <= procCnt
    ensures RankReadable(file, procCnt, 0, delta)
    ensures 0 <= OwnedEnd(file, procCnt, delta, 0) + 1 <= |file|
    ensures OwnedPrefix(file, procCnt, delta, 1) == file[..OwnedEnd(file, procCnt, delta, 0) + 1]
  {
    assert RankReadable(file, procCnt, 0, delta);
    OwnedBounds(file, procCnt, delta, 0);
    var e' := OwnedEnd(file, procCnt, delta, 0) + 1;
    calc {
      OwnedPrefix(file, procCnt, delta, 1);
    ==
      [] + Owned(file, procCnt, delta, 0);
    ==
      file[0..e'];
    ==
      file[..e'];
    }
  }

  /** One more rank: its range starts where the ranks before it stopped. */
  lemma OwnedPrefixStep(file: seq<char>, procCnt: nat, delta: nat, k: nat)
    requires JobReadable(file, procCnt, delta) && 2 <= k <= procCnt
    requires 0 <= NominalEnd(|file|, procCnt, k - 2) < |file| && file[NominalEnd(|file|, procCnt, k - 2)] != '\n'
    requires RankReadable(file, procCnt, k - 2, delta)
    requires 0 <= OwnedEnd(file, procCnt, delta, k - 2) + 1 <= |file|
    requires OwnedPrefix(file, procCnt, delta, k - 1) == file[..OwnedEnd(file, procCnt, delta, k - 2) + 1]
    ensures RankReadable(file, procCnt, k - 1, delta)
    ensures 0 <= OwnedEnd(file, procCnt, delta, k - 1) + 1 <= |file|
    ensures OwnedPrefix(file, procCnt, delta, k) == file[..OwnedEnd(file, procCnt, delta, k - 1) + 1]
  {
    OwnedUnfold(file, procCnt, delta, k);
    AdjacentStart(file, procCnt, delta, k - 2);
    PrefixSplit(file, OwnedEnd(file, procCnt, delta, k - 2) + 1, OwnedEnd(file, procCnt, delta, k - 1) + 1);
  }

  lemma OwnedUnfold(file: seq<char>, procCnt: nat, delta: nat, k: nat)
    requires JobReadable(file, procCnt, delta) && 1 <= k <= procCnt
    ensures RankReadable(file, procCnt, k - 1, delta)
    ensures OwnedStart(file, procCnt, delta, k - 1) <= OwnedEnd(file, procCnt, delta, k - 1) + 1 <= |file|
    ensures OwnedPrefix(file, procCnt, delta, k)
      == OwnedPrefix(file, procCnt, delta, k - 1)
         + file[OwnedStart(file, procCnt, delta, k - 1)..OwnedEnd(file, procCnt, delta, k - 1) + 1]
  {
    assert RankReadable(file, procCnt, k - 1, delta);
    OwnedBounds(file, procCnt, delta, k - 1);
    OwnedSlice(file, procCnt, delta, k - 1);
  }

  /** The one half of `AdjacentRanks` the tiling proof needs. */
  lemma AdjacentStart(file: seq<char>, procCnt: nat, delta: nat, r: nat)
    requires JobReadable(file, procCnt, delta) && r + 1 < procCnt
    requires 0 <= NominalEnd(|file|, procCnt, r) < |file| && file[NominalEnd(|file|, procCnt, r)] != '\n'
    ensures RankReadable(file, procCnt, r, delta) && RankReadable(file, procCnt, r + 1, delta)
    ensures OwnedStart(file, procCnt, delta, r + 1) == OwnedEnd(file, procCnt, delta, r) + 1
  {
    AdjacentRanks(file, procCnt, delta, r);
  }

  lemma OwnedSlice(file: seq<char>, procCnt: nat, delta: nat, rank: nat)
    requires RankReadable(file, procCnt, rank, delta)
    requires 0 <= OwnedStart(file, procCnt, delta, rank) <= OwnedEnd(file, procCnt, delta, rank) + 1 <= |file|
    ensures Owned(file, procCnt, delta, rank)
      == file[OwnedStart(file, procCnt, delta, rank)..OwnedEnd(file, procCnt, delta, rank) + 1]
  {
  }



  /** Partition coverage: when no nominal end byte is a '\n', the kept ranges of
      ranks 0..N-1, concatenated in rank order, are exactly the file. */
  lemma PartitionTiles(file: seq<char>, procCnt: nat, delta: nat)
    requires JobReadable(file, procCnt, delta) && NoNewlineAtNominalEnds(file, procCnt)
    ensures OwnedPrefix(file, procCnt, delta, procCnt) == file
  {
    OwnedPrefixIsFilePrefix(file, procCnt, delta, procCnt);
    assert file[..|file|] == file;
  }

  /** Candidate words of ranks 0..k-1, in rank order. */
  function ScannedLines(file: seq<char>, procCnt: nat, delta: nat, k: nat): seq<string>
    requires JobReadable(file, procCnt, delta) && k <= procCnt
  {
    if k == 0 then []
    else
      assert RankReadable(file, procCnt, k - 1, delta);
      ScannedLines(file, procCnt, delta, k - 1) + Lines(Owned(file, procCnt, delta, k - 1))
  }

  /** Whatever the file, the words of ranks 0..k-1 are the lines of their kept
      ranges taken together: no line is split between two ranks. */
  lemma {:induction false} ScannedLinesOfPrefix(file: seq<char>, procCnt: nat, delta: nat, k: nat)
    requires JobReadable(file, procCnt, delta)
    requires k <= procCnt
    ensures ScannedLines(file, procCnt, delta, k) == Lines(OwnedPrefix(file, procCnt, delta, k))
  {
    if k > 0 {
      ScannedLinesOfPrefix(file, procCnt, delta, k - 1);
      assert RankReadable(file, procCnt, k - 1, delta);
      var before := OwnedPrefix(file, procCnt, delta, k - 1);
      PrefixEndsLine(file, procCnt, delta, k - 1);
      LinesAppend(before, Owned(file, procCnt, delta, k - 1));
    }
  }

  /** The ranges of ranks 0..k-1, for k below the rank count, are empty or end
      with a '\n'. */
  lemma {:induction false} PrefixEndsLine(file: seq<char>, procCnt: nat, delta: nat, k: nat)
    requires JobReadable(file, procCnt, delta)
    requires k < procCnt
    ensures var before := OwnedPrefix(file, procCnt, delta, k);
      before == [] || before[|before| - 1] == '\n'
  {
    if k > 0 {
      PrefixEndsLine(file, procCnt, delta, k - 1);
      assert RankReadable(file, procCnt, k - 1, delta);
      var piece := Owned(file, procCnt, delta, k - 1);
      OwnedEndsLine(file, procCnt, delta, k - 1);
      assert OwnedPrefix(file, procCnt, delta, k) == OwnedPrefix(file, procCnt, delta, k - 1) + piece;
    }
  }

  /** A rank other than the last keeps a range that is empty or ends with a '\n'. */
  lemma OwnedEndsLine(file: seq<char>, procCnt: nat, delta: nat, rank: nat)
    requires RankReadable(file, procCnt, rank, delta) && rank + 1 < procCnt
    ensures var piece := Owned(file, procCnt, delta, rank);
      piece == [] || piece[|piece| - 1] == '\n'
  {
    OwnedBounds(file, procCnt, delta, rank);
  }

  /** The job's candidate words: when no nominal end byte is a '\n', the ranks
      together scan every line of the file exactly once, in file order. */
  lemma PartitionScansEveryLine(file: seq<char>, procCnt: nat, delta: nat)
    requires JobReadable(file, procCnt, delta) && NoNewlineAtNominalEnds(file, procCnt)
    ensures ScannedLines(file, procCnt, delta, procCnt) == Lines(file)
  {
    ScannedLinesOfPrefix(file, procCnt, delta, procCnt);
    PartitionTiles(file, procCnt, delta);
  }

  /** When the byte at rank r's nominal end is a '\n', rank r stops there and rank
      r+1 skips the whole next line (up to and including its '\n'): no rank at
      all keeps any byte of that line. */
  lemma LineLostAtNewlineBoundary(file: seq<char>, procCnt: nat, delta: nat, r: nat)
    requires JobReadable(file, procCnt, delta) && r + 1 < procCnt
    requires RankReadable(file, procCnt, r, delta)
    requires file[NominalEnd(|file|, procCnt, r)] == '\n'
    ensures RankReadable(file, procCnt, r + 1, delta)
    ensures var p := NominalEnd(|file|, procCnt, r) + 1;
      var q := OwnedStart(file, procCnt, delta, r + 1);
      && OwnedEnd(file, procCnt, delta, r) == p - 1
      && p < q <= |file| && file[q - 1] == '\n'
      && (forall j :: p <= j < q - 1 ==> file[j] != '\n')
      && (forall k :: 0 <= k < procCnt ==>
            RankReadable(file, procCnt, k, delta) &&
            (OwnedEnd(file, procCnt, delta, k) < p || q <= OwnedStart(file, procCnt, delta, k)))
  {
    AdjacentRanks(file, procCnt, delta, r);
    OwnedBounds(file, procCnt, delta, r + 1);
    NextNewlineSkips(file, GlobalStart(|file|, procCnt, r + 1));
    forall k | 0 <= k < procCnt
      ensures RankReadable(file, procCnt, k, delta)
      ensures OwnedEnd(file, procCnt, delta, k) <= OwnedEnd(file, procCnt, delta, r)
              || OwnedStart(file, procCnt, delta, r + 1) <= OwnedStart(file, procCnt, delta, k)
    {
      OtherRanksAround(file, procCnt, delta, r, k);
    }
  }

  /** Every rank's range lies at or before rank r's end, or at or after rank
      r+1's start. */
  lemma OtherRanksAround(file: seq<char>, procCnt: nat, delta: nat, r: nat, k: nat)
    requires JobReadable(file, procCnt, delta) && r + 1 < procCnt && k < procCnt
    ensures RankReadable(file, procCnt, k, delta) && RankReadable(file, procCnt, r, delta)
    ensures RankReadable(file, procCnt, r + 1, delta)
    ensures OwnedEnd(file, procCnt, delta, k) <= OwnedEnd(file, procCnt, delta, r)
            || OwnedStart(file, procCnt, delta, r + 1) <= OwnedStart(file, procCnt, delta, k)
  {
    assert RankReadable(file, procCnt, k, delta) && RankReadable(file, procCnt, r, delta);
    assert RankReadable(file, procCnt, r + 1, delta);
    if k < r {
      RanksOrdered(file, procCnt, delta, k, r);
    } else if k > r + 1 {
      RanksOrdered(file, procCnt, delta, r + 1, k);
    }
  }

  /** The line lost at a '\n' boundary, on a four-byte file and two ranks: the
      ranks keep "a\n" and nothing, so the word "b" is never scanned. */
  lemma DroppedLineExample()
    ensures JobReadable("a\nb\n", 2, 100)
    ensures OwnedPrefix("a\nb\n", 2, 100, 2) == "a\n"
    ensures ScannedLines("a\nb\n", 2, 100, 2) == ["a"] && Lines("a\nb\n") == ["a", "b"]
  {
    var file := "a\nb\n";
    DroppedLineRanges();
    assert OwnedPrefix(file, 2, 100, 2) == [] + "a\n" + [];
    DroppedLineTexts();
    assert ScannedLines(file, 2, 100, 2) == [] + Lines("a\n") + Lines([]);
  }

  /** The lines of the example's texts. */
  lemma DroppedLineTexts()
    ensures Lines("a\n") == ["a"] && Lines("a\nb\n") == ["a", "b"]
  {
    LinesSplit("a\n", 1);
    assert "a\n"[..1] == "a" && "a\n"[2..] == [];
    assert Lines("a\n") == ["a"] + Lines([]);
    LinesSplit("a\nb\n", 1);
    assert "a\nb\n"[..1] == "a" && "a\nb\n"[2..] == "b\n";
    LinesSplit("b\n", 1);
    assert "b\n"[..1] == "b" && "b\n"[2..] == [];
  }

  /** The two ranges of the example: rank 0 keeps "a\n", rank 1 nothing. */
  lemma DroppedLineRanges()
    ensures JobReadable("a\nb\n", 2, 100)
    ensures Owned("a\nb\n", 2, 100, 0) == "a\n"
    ensures Owned("a\nb\n", 2, 100, 1) == []
  {
    var file := "a\nb\n";
    assert GlobalStart(4, 2, 1) == 2 && NominalEnd(4, 2, 0) == 1;
    assert RankReadable(file, 2, 0, 100) by { assert file[1] == '\n'; }
    assert RankReadable(file, 2, 1, 100) by { assert file[3] == '\n'; }
    assert NextNewline(file, 1) == 1;
    assert NextNewline(file, 3) == 3;
    assert NextNewline(file, 2) == 3;
  }

  // ---------------------------------------------------------------------
  // The evidently intended start: a rank skips a partial line only.

  /** Start of a rank's kept range when the '\n' search begins one byte before
      the rank's range: a rank whose range begins right after a '\n' keeps its
      first line. */
  function RepairedStart(file: seq<char>, procCnt: nat, delta: nat, rank: nat): nat
    requires JobReadable(file, procCnt, delta) && rank < procCnt
  {
    if rank == 0 then 0
    else
      assert RankReadable(file, procCnt, 0, delta) && RankReadable(file, procCnt, rank, delta);
      NextNewline(file, GlobalStart(|file|, procCnt, rank) - 1) + 1
  }

  lemma {:induction false} RepairedAdjacent(file: seq<char>, procCnt: nat, delta: nat, r: nat)
    requires JobReadable(file, procCnt, delta) && r + 1 < procCnt
    ensures RankReadable(file, procCnt, r, delta)
    ensures OwnedEnd(file, procCnt, delta, r) + 1 == RepairedStart(file, procCnt, delta, r + 1)
  {
    assert RankReadable(file, procCnt, r, delta);
    NominalRange(|file|, procCnt, delta, r);
    assert GlobalStart(|file|, procCnt, r + 1) - 1 == NominalEnd(|file|, procCnt, r);
  }

  lemma RepairedBounds(file: seq<char>, procCnt: nat, delta: nat, rank: nat)
    requires JobReadable(file, procCnt, delta) && rank < procCnt
    ensures RankReadable(file, procCnt, rank, delta)
    ensures RepairedStart(file, procCnt, delta, rank) <= OwnedEnd(file, procCnt, delta, rank) + 1 <= |file|
  {
    assert RankReadable(file, procCnt, rank, delta);
    OwnedBounds(file, procCnt, delta, rank);
    if rank != 0 {
      assert RankReadable(file, procCnt, 0, delta);
      NominalRange(|file|, procCnt, delta, rank);
      var gs := GlobalStart(|file|, procCnt, rank);
      LaterRanksStartPastZero(|file|, procCnt, rank);
      var p := NextNewline(file, gs);
      assert p < |file| && file[p] == '\n';
      NextNewlineBefore(file, gs - 1, p);
    }
  }

  /** Ranks 0..k-1 with the repaired start, concatenated in rank order. */
  function RepairedPrefix(file: seq<char>, procCnt: nat, delta: nat, k: nat): seq<char>
    requires JobReadable(file, procCnt, delta) && k <= procCnt
  {
    if k == 0 then []
    else
      RepairedBounds(file, procCnt, delta, k - 1);
      RepairedPrefix(file, procCnt, delta, k - 1)
        + file[RepairedStart(file, procCnt, delta, k - 1)..OwnedEnd(file, procCnt, delta, k - 1) + 1]
  }

  lemma {:induction false} RepairedPrefixIsFilePrefix(file: seq<char>, procCnt: nat, delta: nat, k: nat)
    requires JobReadable(file, procCnt, delta) && 1 <= k <= procCnt
    ensures RankReadable(file, procCnt, k - 1, delta)
    ensures 0 <= OwnedEnd(file, procCnt, delta, k - 1) + 1 <= |file|
    ensures RepairedPrefix(file, procCnt, delta, k) == file[..OwnedEnd(file, procCnt, delta, k - 1) + 1]
  {
    RepairedBounds(file, procCnt, delta, k - 1);
    var e' := OwnedEnd(file, procCnt, delta, k - 1) + 1;
    if k == 1 {
      calc {
        RepairedPrefix(file, procCnt, delta, 1);
      ==
        [] + file[0..e'];
      ==
        file[..e'];
      }
    } else {
      RepairedPrefixIsFilePrefix(file, procCnt, delta, k - 1);
      RepairedPrefixStep(file, procCnt, delta, k);
    }
  }

  /** One more rank with the repaired start: its range starts where the ranks
      before it stopped. */
  lemma RepairedPrefixStep(file: seq<char>, procCnt: nat, delta: nat, k: nat)
    requires JobReadable(file, procCnt, delta) && 2 <= k <= procCnt
    requires RankReadable(file, procCnt, k - 2, delta)
    requires 0 <= OwnedEnd(file, procCnt, delta, k - 2) + 1 <= |file|
    requires RepairedPrefix(file, procCnt, delta, k - 1) == file[..OwnedEnd(file, procCnt, delta, k - 2) + 1]
    ensures RankReadable(file, procCnt, k - 1, delta)
    ensures 0 <= OwnedEnd(file, procCnt, delta, k - 1) + 1 <= |file|
    ensures RepairedPrefix(file, procCnt, delta, k) == file[..OwnedEnd(file, procCnt, delta, k - 1) + 1]
  {
    RepairedUnfold(file, procCnt, delta, k);
    RepairedAdjacent(file, procCnt, delta, k - 2);
    PrefixSplit(file, OwnedEnd(file, procCnt, delta, k - 2) + 1, OwnedEnd(file, procCnt, delta, k - 1) + 1);
  }

  lemma RepairedUnfold(file: seq<char>, procCnt: nat, delta: nat, k: nat)
    requires JobReadable(file, procCnt, delta) && 1 <= k <= procCnt
    ensures RankReadable(file, procCnt, k - 1, delta)
    ensures RepairedStart(file, procCnt, delta, k - 1) <= OwnedEnd(file, procCnt, delta, k - 1) + 1 <= |file|
    ensures RepairedPrefix(file, procCnt, delta, k)
      == RepairedPrefix(file, procCnt, delta, k - 1)
         + file[RepairedStart(file, procCnt, delta, k - 1)..OwnedEnd(file, procCnt, delta, k - 1) + 1]
  {
    RepairedBounds(file, procCnt, delta, k - 1);
  }

  /** With the repaired start the ranges tile every file the ranks can read,
      whatever byte sits at a nominal end. */
  lemma RepairedPartitionTiles(file: seq<char>, procCnt: nat, delta: nat)
    requires JobReadable(file, procCnt, delta)
    ensures RepairedPrefix(file, procCnt, delta, procCnt) == file
  {
    RepairedPrefixIsFilePrefix(file, procCnt, delta, procCnt);
    assert file[..|file|] == file;
  }

  /** Candidate words of ranks 0..k-1 with the repaired start, in rank order. */
  function RepairedScannedLines(file: seq<char>, procCnt: nat, delta: nat, k: nat): seq<string>
    requires JobReadable(file, procCnt, delta) && k <= procCnt
  {
    if k == 0 then []
    else
      RepairedBounds(file, procCnt, delta, k - 1);
      RepairedScannedLines(file, procCnt, delta, k - 1)
        + Lines(file[RepairedStart(file, procCnt, delta, k - 1)..OwnedEnd(file, procCnt, delta, k - 1) + 1])
  }

  lemma {:induction false} RepairedScannedLinesOfPrefix(file: seq<char>, procCnt: nat, delta: nat, k: nat)
    requires JobReadable(file, procCnt, delta) && k <= procCnt
    ensures RepairedScannedLines(file, procCnt, delta, k) == Lines(RepairedPrefix(file, procCnt, delta, k))
  {
    if k > 0 {
      RepairedScannedLinesOfPrefix(file, procCnt, delta, k - 1);
      RepairedPrefixEndsLine(file, procCnt, delta, k - 1);
      RepairedUnfold(file, procCnt, delta, k);
      LinesAppend(RepairedPrefix(file, procCnt, delta, k - 1),
                  file[RepairedStart(file, procCnt, delta, k - 1)..OwnedEnd(file, procCnt, delta, k - 1) + 1]);
    }
  }

  /** With the repaired start, the ranges of ranks 0..k-1, for k below the rank
      count, are empty or end with a '\n'. */
  lemma {:induction false} RepairedPrefixEndsLine(file: seq<char>, procCnt: nat, delta: nat, k: nat)
    requires JobReadable(file, procCnt, delta) && k < procCnt
    ensures var before := RepairedPrefix(file, procCnt, delta, k);
      before == [] || before[|before| - 1] == '\n'
  {
    if k > 0 {
      RepairedPrefixEndsLine(file, procCnt, delta, k - 1);
      RepairedUnfold(file, procCnt, delta, k);
      RepairedPieceEndsLine(file, procCnt, delta, k - 1);
    }
  }

  /** With the repaired start, a rank other than the last keeps a range that is
      empty or ends with a '\n'. */
  lemma RepairedPieceEndsLine(file: seq<char>, procCnt: nat, delta: nat, rank: nat)
    requires JobReadable(file, procCnt, delta) && rank + 1 < procCnt
    ensures RankReadable(file, procCnt, rank, delta)
    ensures RepairedStart(file, procCnt, delta, rank) <= OwnedEnd(file, procCnt, delta, rank) + 1 <= |file|
    ensures var piece := file[RepairedStart(file, procCnt, delta, rank)..OwnedEnd(file, procCnt, delta, rank) + 1];
      piece == [] || piece[|piece| - 1] == '\n'
  {
    RepairedBounds(file, procCnt, delta, rank);
    OwnedBounds(file, procCnt, delta, rank);
  }

  /** With the repaired start the ranks together scan every line of every file
      they can read exactly once, in file order. */
  lemma RepairedScansEveryLine(file: seq<char>, procCnt: nat, delta: nat)
    requires JobReadable(file, procCnt, delta)
    ensures RepairedScannedLines(file, procCnt, delta, procCnt) == Lines(file)
  {
    RepairedScannedLinesOfPrefix(file, procCnt, delta, procCnt);
    RepairedPartitionTiles(file, procCnt, delta);
  }
}
