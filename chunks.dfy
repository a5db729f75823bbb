/** `process_in_chunks` as the code runs it: the rank reads its bytes into a
    buffer, moves both ends of its range to line boundaries with two loops, and
    walks the range character by character in two nested loops. */
module Chunks {
  import opened Words
  import opened Partition
  import opened Search

  /** The two trimming loops over a buffer of `chunkSize` bytes followed by the
      terminating '\0'. A rank other than rank 0 starts one past the buffer's
      first '\n'; a rank other than the last ends at the first '\n' at or after
      offset `chunkSize - 1 - delta`, its nominal end. Rank 0 keeps its start and
      the last rank its end, so a rank that is both trims nothing. */
  method TrimChunk(chunk: array<char>, chunkSize: int, rank: nat, procCnt: nat, delta: nat,
                   ghost buffer: seq<char>)
    returns (locstart: int, locend: int)
    requires 0 <= chunkSize <= IntMax && chunk.Length == chunkSize + 1
    requires buffer == chunk[..chunkSize]
    requires rank != 0 ==> NextNewline(buffer, 0) < |buffer|
    requires rank != procCnt - 1 ==>
      0 <= |buffer| - 1 - delta && NextNewline(buffer, |buffer| - 1 - delta) < |buffer|
    ensures rank == 0 ==> locstart == 0
    ensures rank != 0 ==> locstart == NextNewline(buffer, 0) + 1
    ensures rank == procCnt - 1 ==> locend == |buffer| - 1
    ensures rank != procCnt - 1 ==> locend == NextNewline(buffer, |buffer| - 1 - delta)
    ensures rank != procCnt - 1 ==> locend < chunkSize && chunk[locend] == '\n'
    ensures 0 <= locstart <= locend + 1 <= |buffer|
  {
    locstart, locend := 0, chunkSize - 1;
    if rank != 0 {
      NextNewlineSkips(buffer, 0);
      while chunk[locstart] != '\n'
        invariant 0 <= locstart <= NextNewline(buffer, 0) < chunkSize
        decreases chunkSize - locstart
      {
        locstart := locstart + 1;
      }
      locstart := locstart + 1;
    }
    if rank != procCnt - 1 {
      locend := locend - delta;
      NextNewlineSkips(buffer, chunkSize - 1 - delta);
      while chunk[locend] != '\n'
        invariant chunkSize - 1 - delta <= locend <= NextNewline(buffer, chunkSize - 1 - delta) < chunkSize
        decreases chunkSize - locend
      {
        locend := locend + 1;
      }
      if rank != 0 {
        NextNewlineBefore(buffer, 0, locend);
      }
    }
  }

  /** The bytes from offset `i` to the end of `text` (none past the end). */
  ghost function From(text: seq<char>, i: int): seq<char>
  {
    if 0 <= i <= |text| then text[i..] else []
  }

  /** The inner loop: appends characters from `start` up to the next '\n' or
      past `locend`. Its guard `!isspace(c) || chunk[i] != '\n'` holds exactly
      when `c` is not '\n'. The length flag is raised once 40 characters have
      been appended; the symbol flag, coming in as `carried`, is raised at the
      first bad character and never lowered. */
  method NextWord(chunk: array<char>, start: int, locend: int, carried: bool, ghost text: seq<char>)
    returns (word: string, i: int, flagLenErr: bool, flagSymErr: bool)
    requires 0 <= start <= locend < chunk.Length
    requires text == chunk[..locend + 1]
    ensures start <= i <= locend + 1
    ensures word == text[start..i]
    ensures i <= locend ==> text[i] == '\n'
    ensures forall j :: start <= j < i ==> text[j] != '\n'
    ensures flagLenErr <==> IsTooLong(word)
    ensures flagSymErr <==> carried || HasBadChar(word)
  {
    word, i, flagLenErr, flagSymErr := "", start, false, carried;
    var c := chunk[i];
    var iter := 0;
    while !IsSpace(c) || chunk[i] != '\n'
      invariant start <= i <= locend && c == chunk[i]
      invariant word == chunk[start..i] && iter == |word|
      invariant forall j :: start <= j < i ==> chunk[j] != '\n'
      invariant flagLenErr <==> iter >= MaxWordLength
      invariant flagSymErr <==> carried || HasBadChar(word)
      decreases locend - i
    {
      HasBadCharSnoc(word, c);
      word := word + [c];
      i := i + 1;
      iter := iter + 1;
      if iter >= MaxWordLength {
        flagLenErr := true;
      }
      if !IsAlpha(c) && !IsDigit(c) {
        if !flagSymErr {
          flagSymErr := SymbolCheck(c);
        }
      }
      if i > locend {
        break;
      }
      c := chunk[i];
    }
  }

  /** A word ending at a '\n' or at the end of `text` is the first of the words
      from its start, and the rest start past its end. */
  lemma LinesFrom(text: seq<char>, start: int, i: int)
    requires 0 <= start <= i <= |text| && start < |text|
    requires i < |text| ==> text[i] == '\n'
    requires forall j :: start <= j < i ==> text[j] != '\n'
    ensures Lines(From(text, start)) == [text[start..i]] + Lines(From(text, i + 1))
  {
    var s := text[start..];
    var p := i - start;
    assert s[..p] == text[start..i];
    if i < |text| {
      LinesSplit(s, p);
      assert s[p + 1..] == From(text, i + 1);
    } else {
      assert s == text[start..i];
      LinesSingle(s);
    }
  }

  /** The word loop over `chunk[locstart..locend]`. Before each word it probes
      for a peer's notice (seen from the `cancelAfter`-th word on), takes the next
      word and then rejects it (only the flag named in the diagnostic is lowered)
      or hashes it, returning it at once when its hash equals `pwdHash`. The
      result is the scan of the range's '\n'-separated words. */
  method ScanChunk(chunk: array<char>, locstart: int, locend: int, pwdHash: string,
                   crypt: (string, string) -> string, cancelAfter: nat)
    returns (res: string, diagnostics: seq<Diagnostic>, hashed: seq<string>)
    requires 0 <= locstart <= locend + 1 <= chunk.Length && locend + 2 <= IntMax
    ensures ScanResult(res, diagnostics, hashed)
      == Scan(Lines(chunk[locstart..locend + 1]), false, 0, cancelAfter, crypt, pwdHash)
  {
    ghost var text := chunk[..locend + 1];
    assert From(text, locstart) == chunk[locstart..locend + 1];
    ghost var all := Scan(Lines(From(text, locstart)), false, 0, cancelAfter, crypt, pwdHash);
    var flagLenErr := false;
    var flagSymErr := false;
    var probes: nat := 0;  // words taken so far: the probe's view of time
    diagnostics, hashed := [], [];
    var i := locstart;
    ghost var remaining := Lines(From(text, i));  // the words not taken yet
    ExtendNothing(all);
    while i <= locend
      invariant locstart <= i <= locend + 2
      invariant !flagLenErr
      invariant remaining == Lines(From(text, i))
      invariant Extend(diagnostics, hashed, Scan(remaining, flagSymErr, probes, cancelAfter, crypt, pwdHash)) == all
      decreases locend + 2 - i
    {
      var flagMsg := probes >= cancelAfter;  // MPI_Iprobe
      if flagMsg {
        break;
      }
      ghost var carried := flagSymErr;
      var word, next;
      word, next, flagLenErr, flagSymErr := NextWord(chunk, i, locend, flagSymErr, text);
      LinesFrom(text, i, next);
      remaining := Lines(From(text, next + 1));
      ScanStep(diagnostics, hashed, all, word, remaining, carried, probes, cancelAfter, crypt, pwdHash);
      i := next;
      if flagLenErr {
        diagnostics := diagnostics + [LengthError(word)];
        flagLenErr := false;
      } else if flagSymErr {
        diagnostics := diagnostics + [BadSymbolsError(word)];
        flagSymErr := false;
      } else {
        var cmpRes := crypt(word, pwdHash);
        hashed := hashed + [word];
        if pwdHash == cmpRes {
          res := word;
          return;
        }
      }
      i := i + 1;
      probes := probes + 1;
      assert From(text, i) == From(text, next + 1);
    }
    assert Scan(remaining, flagSymErr, probes, cancelAfter, crypt, pwdHash) == ScanResult("", [], []);
    ExtendDone(diagnostics, hashed);
    res := "";
  }

  /** One rank's `process_in_chunks`: partition arithmetic, the read of its bytes
      (what the buffer holds past the end of the file is `junk`, never looked at),
      trimming, and the word loop. The rank scans exactly the words of the range
      it keeps. */
  method ProcessInChunks(file: seq<char>, rank: nat, procCnt: nat, delta: nat, pwdHash: string,
                         crypt: (string, string) -> string, cancelAfter: nat, junk: char)
    returns (res: string, diagnostics: seq<Diagnostic>, hashed: seq<string>)
    requires RankReadable(file, procCnt, rank, delta) && ReadFitsInt(|file|, procCnt, rank, delta)
    ensures ScanResult(res, diagnostics, hashed)
      == Scan(Lines(Owned(file, procCnt, delta, rank)), false, 0, cancelAfter, crypt, pwdHash)
  {
    ReadLengthNonNegative(file, procCnt, delta, rank);
    var fileSize := |file|;
    var globalStart := GlobalStart(fileSize, procCnt, rank);
    var chunkSize := ReadLength(fileSize, procCnt, rank, delta);
    var bytes := ReadAt(file, globalStart, chunkSize, junk);
    var chunk := new char[chunkSize + 1](j => if 0 <= j < chunkSize then bytes[j] else '\0');
    assert chunk[..chunkSize] == bytes by {
      forall j | 0 <= j < chunkSize ensures chunk[..chunkSize][j] == bytes[j] {
      }
    }
    ReadBufferTrims(file, procCnt, delta, rank, bytes, junk);
    assert |bytes| == chunkSize;
    var locstart, locend := TrimChunk(chunk, chunkSize, rank, procCnt, delta, bytes);
    TrimmedIsOwned(file, procCnt, delta, rank, bytes, junk, locstart, locend);
    assert chunk[locstart..locend + 1] == bytes[locstart..locend + 1] by {
      SliceOfPrefix(chunk[..], chunkSize, locstart, locend + 1);
    }
    res, diagnostics, hashed := ScanChunk(chunk, locstart, locend, pwdHash, crypt, cancelAfter);
  }

  /** `MPI_File_read_at_all`: `count` bytes from `offset`; what a short read
      leaves in the buffer past the end of the file is `junk`. */
  function ReadAt(file: seq<char>, offset: nat, count: nat, junk: char): (buf: seq<char>)
    ensures |buf| == count
  {
    seq(count, j requires 0 <= j < count => if offset + j < |file| then file[offset + j] else junk)
  }

  /** What `ReadAt` puts in the buffer: the file's bytes from `offset` on, then
      `junk` once the file has ended. */
  lemma ReadAtBytes(file: seq<char>, offset: nat, count: nat, junk: char)
    ensures forall j :: 0 <= j < count && offset + j < |file| ==> ReadAt(file, offset, count, junk)[j] == file[offset + j]
    ensures forall j :: 0 <= j < count && |file| <= offset + j ==> ReadAt(file, offset, count, junk)[j] == junk
  {
  }

  lemma ReadLengthNonNegative(file: seq<char>, procCnt: nat, delta: nat, rank: nat)
    requires RankReadable(file, procCnt, rank, delta)
    ensures ReadLength(|file|, procCnt, rank, delta) >= 0
  {
    NominalRange(|file|, procCnt, delta, rank);
  }

  /** Trimming the bytes a rank read, as `TrimChunk` does, leaves exactly the
      range the rank keeps. */
  lemma TrimmedIsOwned(file: seq<char>, procCnt: nat, delta: nat, rank: nat, buffer: seq<char>, junk: char,
                       locstart: int, locend: int)
    requires RankReadable(file, procCnt, rank, delta)
    requires ReadLength(|file|, procCnt, rank, delta) >= 0
    requires buffer == ReadAt(file, GlobalStart(|file|, procCnt, rank), ReadLength(|file|, procCnt, rank, delta), junk)
    requires rank == 0 ==> locstart == 0
    requires rank != 0 ==> NextNewline(buffer, 0) < |buffer| && locstart == NextNewline(buffer, 0) + 1
    requires rank == procCnt - 1 ==> locend == |buffer| - 1
    requires rank != procCnt - 1 ==>
      0 <= |buffer| - 1 - delta && locend == NextNewline(buffer, |buffer| - 1 - delta)
    requires 0 <= locstart <= locend + 1 <= |buffer|
    ensures buffer[locstart..locend + 1] == Owned(file, procCnt, delta, rank)
  {
    ReadBufferTrims(file, procCnt, delta, rank, buffer, junk);
    KeptBytes(file, procCnt, delta, rank, buffer, junk, locstart, locend);
  }

  /** The trimming loops, run on the bytes a rank read, stop at the file's own
      line boundaries: offsets in the buffer are file offsets minus the rank's
      start, and both stops lie inside the buffer. */
  lemma ReadBufferTrims(file: seq<char>, procCnt: nat, delta: nat, rank: nat, buffer: seq<char>, junk: char)
    requires RankReadable(file, procCnt, rank, delta)
    requires ReadLength(|file|, procCnt, rank, delta) >= 0
    requires buffer == ReadAt(file, GlobalStart(|file|, procCnt, rank), ReadLength(|file|, procCnt, rank, delta), junk)
    ensures rank == 0 ==> OwnedStart(file, procCnt, delta, rank) == 0
    ensures rank != 0 ==>
      && NextNewline(buffer, 0) < |buffer|
      && GlobalStart(|file|, procCnt, rank) + NextNewline(buffer, 0) + 1 == OwnedStart(file, procCnt, delta, rank)
    ensures rank == procCnt - 1 ==>
      GlobalStart(|file|, procCnt, rank) + |buffer| - 1 == OwnedEnd(file, procCnt, delta, rank)
    ensures rank != procCnt - 1 ==>
      && 0 <= |buffer| - 1 - delta
      && NextNewline(buffer, |buffer| - 1 - delta) < |buffer|
      && GlobalStart(|file|, procCnt, rank) + NextNewline(buffer, |buffer| - 1 - delta)
         == OwnedEnd(file, procCnt, delta, rank)
  {
    if rank != 0 {
      TrimStartInBuffer(file, procCnt, delta, rank, buffer, junk);
    }
    if rank == procCnt - 1 {
      NominalRange(|file|, procCnt, delta, rank);
    } else {
      TrimEndInBuffer(file, procCnt, delta, rank, buffer, junk);
    }
  }

  /** Where the first trimming loop stops in the buffer. */
  lemma TrimStartInBuffer(file: seq<char>, procCnt: nat, delta: nat, rank: nat, buffer: seq<char>, junk: char)
    requires RankReadable(file, procCnt, rank, delta) && rank != 0
    requires ReadLength(|file|, procCnt, rank, delta) >= 0
    requires buffer == ReadAt(file, GlobalStart(|file|, procCnt, rank), ReadLength(|file|, procCnt, rank, delta), junk)
    ensures NextNewline(buffer, 0) < |buffer|
    ensures GlobalStart(|file|, procCnt, rank) + NextNewline(buffer, 0) + 1 == OwnedStart(file, procCnt, delta, rank)
  {
    OwnedBounds(file, procCnt, delta, rank);
    var gs := GlobalStart(|file|, procCnt, rank);
    BufferNewline(file, buffer, junk, gs, 0, gs);
  }

  /** Where the second trimming loop stops in the buffer: `|buffer| - 1 - delta`
      is the nominal end, seen from the rank's start. */
  lemma TrimEndInBuffer(file: seq<char>, procCnt: nat, delta: nat, rank: nat, buffer: seq<char>, junk: char)
    requires RankReadable(file, procCnt, rank, delta) && rank != procCnt - 1
    requires ReadLength(|file|, procCnt, rank, delta) >= 0
    requires buffer == ReadAt(file, GlobalStart(|file|, procCnt, rank), ReadLength(|file|, procCnt, rank, delta), junk)
    ensures 0 <= |buffer| - 1 - delta
    ensures NextNewline(buffer, |buffer| - 1 - delta) < |buffer|
    ensures GlobalStart(|file|, procCnt, rank) + NextNewline(buffer, |buffer| - 1 - delta)
            == OwnedEnd(file, procCnt, delta, rank)
  {
    NominalRange(|file|, procCnt, delta, rank);
    var gs := GlobalStart(|file|, procCnt, rank);
    var ne := NominalEnd(|file|, procCnt, rank);
    var k := |buffer| - 1 - delta;
    assert gs + k == ne;
    BufferNewline(file, buffer, junk, gs, k, ne);
  }

  /** The trimmed part of the buffer is the range the rank keeps. */
  lemma KeptBytes(file: seq<char>, procCnt: nat, delta: nat, rank: nat, buffer: seq<char>, junk: char,
                  locstart: int, locend: int)
    requires RankReadable(file, procCnt, rank, delta)
    requires ReadLength(|file|, procCnt, rank, delta) >= 0
    requires buffer == ReadAt(file, GlobalStart(|file|, procCnt, rank), ReadLength(|file|, procCnt, rank, delta), junk)
    requires 0 <= locstart <= locend + 1 <= |buffer|
    requires GlobalStart(|file|, procCnt, rank) + locstart == OwnedStart(file, procCnt, delta, rank)
    requires GlobalStart(|file|, procCnt, rank) + locend == OwnedEnd(file, procCnt, delta, rank)
    ensures buffer[locstart..locend + 1] == Owned(file, procCnt, delta, rank)
  {
    OwnedBounds(file, procCnt, delta, rank);
    OwnedSlice(file, procCnt, delta, rank);
    SliceShift(buffer, file, junk, GlobalStart(|file|, procCnt, rank), locstart, locend + 1);
  }

  lemma SliceOfPrefix(a: seq<char>, n: nat, lo: nat, hi: nat)
    requires lo <= hi <= n <= |a|
    ensures a[..n][lo..hi] == a[lo..hi]
  {
  }

  /** A stretch of the buffer that holds file bytes is the slice of the file it holds. */
  lemma SliceShift(buffer: seq<char>, file: seq<char>, junk: char, offset: nat, lo: nat, hi: nat)
    requires buffer == ReadAt(file, offset, |buffer|, junk)
    requires lo <= hi <= |buffer| && offset + hi <= |file|
    ensures buffer[lo..hi] == file[offset + lo..offset + hi]
  {
    ReadAtBytes(file, offset, |buffer|, junk);
    forall j | 0 <= j < hi - lo
      ensures buffer[lo..hi][j] == file[offset + lo..offset + hi][j]
    {
      assert buffer[lo + j] == file[offset + lo + j];
    }
  }

  /** The first '\n' the trimming loops find in the buffer, from `k` on, is the
      first '\n' of the file from the same place `at`, when that one lies inside
      the buffer. */
  lemma BufferNewline(file: seq<char>, buffer: seq<char>, junk: char, start: nat, k: nat, at: nat)
    requires buffer == ReadAt(file, start, |buffer|, junk)
    requires start + k == at <= |file|
    requires NextNewline(file, at) < |file|
    requires NextNewline(file, at) - start < |buffer|
    ensures k <= |buffer|
    ensures NextNewline(buffer, k) == NextNewline(file, at) - start
  {
    var p := NextNewline(file, at) - start;
    NextNewlineSkips(file, at);
    ReadAtBytes(file, start, |buffer|, junk);
    forall j | k <= j < p ensures buffer[j] != '\n' {
      assert buffer[j] == file[start + j];
    }
    assert buffer[p] == file[start + p];
    NextNewlineAt(buffer, k, p);
  }
}
