# pwdfinder: one rank's dictionary search

`pwdfinder` is an MPI program that recovers a Unix password from its DES
`crypt` hash. It splits a dictionary file (one candidate password per line)
into one byte range per process (rank) and hashes each candidate in its range.
It stops at the first candidate whose hash equals the target, or when a peer
announces that it found the password. This project models what one rank does
in `process_in_chunks` and `main` (`pwdfinder.cpp`):

- **Partition arithmetic** (module `Partition`). The rank's nominal range is
  `[r*(F/N), r*(F/N) + F/N - 1]`, and the last rank ends at `F - 1`. Every rank
  but the last reads `delta` extra bytes.
- **Trimming** (`Chunks.TrimChunk`). Both ends of the range are moved to line
  boundaries. `Partition.OwnedStart`/`OwnedEnd` give the result in file
  offsets, and `Partition.Owned` gives the bytes the rank keeps.
- **Word splitting and the two gates** (`Chunks.NextWord`, `Words`). The words
  are the '\n'-separated segments of the kept range (`Words.Lines`). A word of
  40 or more characters is rejected for length. A word with a character that
  is not a letter, a digit or one of the 31 checked symbols is rejected as
  having bad symbols.
- **The search** (`Chunks.ScanChunk`, specified by `Search.Scan`). Words are
  hashed in order. The scan returns at the first match, and stops when a
  peer's notice is seen.
- **`main`** (`Finder.Run`). It checks its arguments in a fixed order with
  exit codes 1 to 4, runs the search, and writes the result lines.

The imperative code stays imperative. The trimming loops and the nested word
loops are methods over an `array<char>` buffer, and each is proved against a
function on sequences. `ProcessInChunks` is proved to scan exactly
`Scan(Lines(Owned(file, N, delta, rank)))`.

The job-level properties are lemmas over all ranks:

- The kept ranges are ordered and never overlap.
- For every readable file, the words of the ranks, in rank order, are the
  lines of their kept ranges put together: no line is split between ranks.
- Under two conditions, the ranges tile the file and the ranks together scan
  every line once. The conditions are: every overlap window holds a '\n', and
  no nominal end byte is a '\n'.
- When a nominal end byte is a '\n', a whole line is lost.

The hash function is a parameter `crypt: (string, string) -> string`. The
peer's cancellation notice is a parameter `cancelAfter`: the probe sees the
notice before the `cancelAfter`-th word (counting from 0) and at every probe
after it.

Two behaviours of the code shape the model:

- The guard `if (!flag_sym_err)` at pwdfinder.cpp:110 skips the symbol check
  once the flag is up. Within a word, the flag is therefore the whole-word
  predicate `HasBadChar`. After a word that fails both gates, only the length
  flag is cleared (pwdfinder.cpp:127-130). The symbol flag carries into the
  next word (second finding below).
- A line is lost whenever a nominal end byte is a '\n' (first finding below).

## Model

| member | source | states |
|---|---|---|
| Partition.ChunkSize | pwdfinder.cpp:56 | the nominal range length `F/N`, rounded down |
| Partition.GlobalStart | pwdfinder.cpp:57 | rank r's first byte: rank 0 starts at 0, and each rank starts `F/N` bytes after the one before |
| Partition.NominalEnd | pwdfinder.cpp:58-60 | a rank's last nominal byte: `F-1` for the last rank, otherwise `globalstart + F/N - 1` |
| Partition.GlobalEnd | pwdfinder.cpp:58-63 | the last byte read: the nominal end plus `delta`, except for the last rank |
| Partition.ReadLength | pwdfinder.cpp:65 | the number of bytes read, `globalend - globalstart + 1` |
| Partition.ReadFitsInt | pwdfinder.cpp:70-87 | the number of bytes read, and the position past it that `i` reaches, fit in the 32-bit `int` that holds them |
| Partition.RankReadable | pwdfinder.cpp:73-83 | the files on which both trimming loops stop inside the bytes the rank read |
| Partition.OwnedStart | pwdfinder.cpp:76-79 | the first byte kept: 0 for rank 0, otherwise one past the first '\n' at or after the rank's start |
| Partition.OwnedEnd | pwdfinder.cpp:80-83 | the last byte kept: `F-1` for the last rank, otherwise the first '\n' at or after the nominal end |
| Partition.Owned | pwdfinder.cpp:73-85 | the bytes between the kept start and the kept end |
| Partition.GlobalStartIsProduct | pwdfinder.cpp:56-57 | a rank's start offset is `rank * (F/N)` |
| Partition.NominalRange | pwdfinder.cpp:56-65 | rank r's nominal range lies in the file and starts at 0 for rank 0. It ends right before rank r+1's range, or at `F-1` for the last rank. The rank reads `F/N + delta` bytes, or the rest of the file when it is the last rank |
| Partition.NominalPartition | pwdfinder.cpp:56-65 | the nominal ranges of all ranks are adjacent and cover `[0, F)`. Every rank but the last reads `F/N + delta` bytes |
| Partition.OwnedBounds | pwdfinder.cpp:73-83 | the kept range lies between the rank's start and its last byte read. It ends with a '\n' unless the rank is last, and it starts right after a '\n' unless the rank is 0 |
| Partition.AdjacentRanks | pwdfinder.cpp:76-83 | neighbouring ranks never share a byte. Rank r's kept end + 1 equals rank r+1's kept start exactly when the byte at rank r's nominal end is not a '\n' |
| Partition.AdjacentApart | pwdfinder.cpp:76-83 | rank r's range ends before rank r+1's starts, and both ends are in order |
| Partition.RanksOrdered | pwdfinder.cpp:73-83 | for any two ranks lo < hi, lo's kept range lies wholly before hi's |
| Partition.FirstOwnedPrefix | pwdfinder.cpp:73-83 | rank 0's kept range is a prefix of the file |
| Partition.OwnedPrefixStep | pwdfinder.cpp:76-83 | when rank k-2's nominal end byte is not a '\n', adding rank k-1 extends the prefix of the file the ranks cover |
| Partition.OwnedPrefixIsFilePrefix | pwdfinder.cpp:73-85 | with no '\n' at any nominal end, ranks 0..k-1 concatenated are the file up to rank k-1's kept end |
| Partition.PartitionTiles | pwdfinder.cpp:56-85 | with no '\n' at any nominal end, all ranks' kept ranges concatenated in rank order are the whole file |
| Partition.PrefixEndsLine | pwdfinder.cpp:80-83 | for every readable file, the bytes of ranks 0..k-1 (k below the rank count) are empty or end with a '\n' |
| Partition.OwnedEndsLine | pwdfinder.cpp:80-83 | the range a rank other than the last keeps is empty or ends with a '\n' |
| Partition.ScannedLinesOfPrefix | pwdfinder.cpp:96-123 | for every readable file, the words of ranks 0..k-1, in rank order, are the lines of their concatenated ranges |
| Partition.PartitionScansEveryLine | pwdfinder.cpp:56-123 | with no '\n' at any nominal end, the ranks together scan every line of the file exactly once, in file order |
| Partition.LineLostAtNewlineBoundary | pwdfinder.cpp:76-83 | when rank r's nominal end byte is a '\n', rank r stops there and rank r+1 starts past the next line's '\n'. No rank keeps any byte of that line |
| Partition.OtherRanksAround | pwdfinder.cpp:73-83 | every rank's range lies at or before rank r's end, or at or after rank r+1's start |
| Partition.DroppedLineRanges | pwdfinder.cpp:76-83 | for "a\nb\n" and two ranks, rank 0 keeps "a\n" and rank 1 keeps nothing |
| Partition.DroppedLineExample | pwdfinder.cpp:76-83 | for "a\nb\n" and two ranks, the ranks scan only "a", while the file's lines are "a" and "b" |
| Partition.RepairedAdjacent | pwdfinder.cpp:76-79 | if rank r+1 searches for its '\n' from one byte before its start, it starts right after rank r's kept end |
| Partition.RepairedStart | pwdfinder.cpp:76-79 | the corrected start: rank r>0 starts one past the first '\n' at or after the byte before its range |
| Partition.RepairedBounds | pwdfinder.cpp:76-83 | the repaired start lies within the rank's range |
| Partition.RepairedPrefixStep | pwdfinder.cpp:76-83 | adding rank k-1 extends the repaired prefix to rank k-1's kept end |
| Partition.RepairedPrefixIsFilePrefix | pwdfinder.cpp:76-83 | with the repaired start, ranks 0..k-1 cover the file up to rank k-1's end, whatever the nominal end bytes hold |
| Partition.RepairedPartitionTiles | pwdfinder.cpp:76-83 | with the repaired start, the kept ranges tile every file the ranks can read |
| Partition.RepairedScannedLines | pwdfinder.cpp:96-123 | the words of ranks 0..k-1 with the corrected start, in rank order |
| Partition.RepairedPieceEndsLine | pwdfinder.cpp:80-83 | with the corrected start, the range a rank other than the last keeps is empty or ends with a '\n' |
| Partition.RepairedPrefixEndsLine | pwdfinder.cpp:80-83 | with the corrected start, the bytes of ranks 0..k-1 (k below the rank count) are empty or end with a '\n' |
| Partition.RepairedScannedLinesOfPrefix | pwdfinder.cpp:96-123 | with the corrected start, the words of ranks 0..k-1 are the lines of their concatenated ranges |
| Partition.RepairedScansEveryLine | pwdfinder.cpp:56-123 | with the corrected start, the ranks together scan every line of every readable file exactly once, in file order |
| Words.NextNewline | pwdfinder.cpp:77 | the stop of a `while (chunk[k] != '\n') k++` loop lies between its start and the end of the buffer, and is a '\n' when it is inside |
| Words.NextNewlineSkips | pwdfinder.cpp:77 | no '\n' lies between the loop's start and its stop |
| Words.NextNewlineBefore | pwdfinder.cpp:82 | the loop stops at or before any '\n' after its start |
| Words.NextNewlineAt | pwdfinder.cpp:77 | a position that is a '\n' (or the end of the buffer) with no '\n' before it is where the loop stops |
| Words.Lines | pwdfinder.cpp:96-123 | the words of a range: its '\n'-separated segments, a final segment without a '\n' included, no empty word after a final '\n'. A non-empty range has at least one word |
| Words.LinesSplit | pwdfinder.cpp:100-123 | the first word ends at the first '\n', and the remaining words start right after it |
| Words.LinesSingle | pwdfinder.cpp:100-121 | a non-empty range without '\n' is a single word (the last segment ends at `locend`) |
| Words.LinesUnlines | pwdfinder.cpp:96-123 | splitting words joined by '\n' gives the words back, empty words included |
| Words.UnlinesLines | pwdfinder.cpp:96-123 | re-joining the words gives the range back, plus a final '\n' when it had none. Only '\n' separates words, so spaces, tabs and '\r' stay inside words |
| Words.LinesAppend | pwdfinder.cpp:96-123 | a buffer cut right after a '\n' splits into the words of its two halves |
| Words.HasBadCharSnoc | pwdfinder.cpp:101-118 | appending a character raises the bad-character predicate exactly when the word had one or the character is bad |
| Words.IsBadChar | pwdfinder.cpp:109-117 | a character raises the symbol flag when it is not a letter, not a digit, and not among the first 31 entries of `allowed_sym` |
| Words.HasBadChar | pwdfinder.cpp:101-118 | a word has a bad character somewhere |
| Words.IsTooLong | pwdfinder.cpp:106 | a word of 40 or more characters raises the length flag |
| Words.IsValidWord | pwdfinder.cpp:127-135 | a word that passes both gates |
| Words.SymbolCheck | pwdfinder.cpp:110-117 | the loop over `allowed_sym` raises the flag exactly when the character is not among the first 31 symbols |
| Words.CharsetBoundary | pwdfinder.cpp:49-50 | '~' (index 31, never compared), ',' (absent), tab and '\r' are bad characters. Space, '}', letters and digits are not |
| Search.Scan | pwdfinder.cpp:87-160 | the word loop over the list of words: each word is rejected for length, rejected for symbols (with the flag carried over), or hashed. The scan returns at a match, and stops at the cancellation notice or at the end of the words |
| Search.ScanStep | pwdfinder.cpp:125-154 | the word loop's bookkeeping: after each branch, the diagnostics and hashes so far, followed by the scan of the rest, are still the whole scan |
| Search.ScanGate | pwdfinder.cpp:127-135 | only words shorter than 40 characters without a bad character are hashed. A length diagnostic names a word of 40 or more characters, bad characters or not. A symbol diagnostic names a shorter word. Every reported or hashed word is a candidate |
| Search.ScanJudgesEveryWord | pwdfinder.cpp:125-135 | every word the scan took was judged. A word of 40 or more characters got a length diagnostic. A shorter word with a bad character got a symbol diagnostic. A valid word was hashed or, when the flag carried over, got a symbol diagnostic |
| Search.ScanIsRepaired | pwdfinder.cpp:127-134 | when no word fails both gates, the scan as written equals the scan that clears both flags after every word |
| Search.ScanFindsFirstMatch | pwdfinder.cpp:127-150 | when no word fails both gates and no notice comes, the scan as written returns the first valid word whose hash equals the target |
| Search.ScanGateExact | pwdfinder.cpp:127-135 | when no word fails both gates, a symbol diagnostic names a word with a bad character, and every valid word the scan took was hashed |
| Search.ScanFirstMatch | pwdfinder.cpp:137-150 | a non-empty result is the last word hashed, and its hash equals the target. Every word hashed before it missed. A last hashed word that matches is the result, so a matching empty word looks like no match |
| Search.ScanFoundIsLastHashed | pwdfinder.cpp:137-150 | the result is the last word hashed, and its hash equals the target |
| Search.ScanEarlierHashesMiss | pwdfinder.cpp:137-154 | every hash before the last one missed the target |
| Search.ScanStops | pwdfinder.cpp:90-94 | the scan takes at most all the words, and at most one per probe before the notice. Without a notice it takes every word unless it stops at a match |
| Search.ScanTakesAtMost | pwdfinder.cpp:90-94 | no more words are taken than there are words or probes before the notice |
| Search.ScanTakesAll | pwdfinder.cpp:90-94 | without a notice, every word is taken unless the scan stops at a match |
| Search.Commas40 | pwdfinder.cpp:106-118 | a word of 40 commas is too long and has a bad character |
| Search.CarriedFlagHidesMatch | pwdfinder.cpp:127-134 | after a word that fails both gates, the next word is rejected for bad symbols even when it is valid and its hash is the target |
| Search.RepairedScan | pwdfinder.cpp:127-135 | the corrected scan: each word is judged on its own, with both flags cleared after every word |
| Search.RepairedScanGate | pwdfinder.cpp:127-135 | in the corrected scan, a symbol diagnostic names a word shorter than 40 characters with a bad character, a length diagnostic a word of 40 or more, and every valid word taken is hashed |
| Search.RepairedScanFindsFirstMatch | pwdfinder.cpp:127-150 | when both flags are cleared after every word and no notice comes, the scan returns the first valid word whose hash equals the target |
| Chunks.TrimChunk | pwdfinder.cpp:73-83 | `locstart` is one past the buffer's first '\n' (0 for rank 0). `locend` is the first '\n' at or after offset `chunk_size-1-delta` (`chunk_size-1` for the last rank). A rank that is both first and last trims nothing |
| Chunks.NextWord | pwdfinder.cpp:96-123 | the inner loop appends the characters up to the next '\n' or past `locend`. The length flag is up exactly when the word has 40 or more characters. The symbol flag is up exactly when it came in up or the word has a bad character |
| Chunks.LinesFrom | pwdfinder.cpp:100-123 | the word the inner loop took is the first of the words from its start, and the rest start past its end |
| Chunks.ScanChunk | pwdfinder.cpp:87-160 | the word loop returns, reports and hashes exactly what `Scan` of the range's words does |
| Chunks.ProcessInChunks | pwdfinder.cpp:33-161 | one rank's run scans exactly the words of the range it keeps |
| Chunks.ReadAt | pwdfinder.cpp:67-71 | the read fills exactly `chunk_size` bytes |
| Chunks.ReadAtBytes | pwdfinder.cpp:70 | the buffer holds the file's bytes from the rank's start, and `junk` past the end of the file |
| Chunks.ReadLengthNonNegative | pwdfinder.cpp:65 | the second `chunk_size` is not negative |
| Chunks.ReadBufferTrims | pwdfinder.cpp:73-83 | on the bytes read, both trimming loops stop inside the buffer, at the file's own boundaries shifted by the rank's start |
| Chunks.TrimStartInBuffer | pwdfinder.cpp:76-79 | the first loop stops inside the buffer, at the kept start |
| Chunks.TrimEndInBuffer | pwdfinder.cpp:80-83 | the second loop starts at the nominal end and stops inside the buffer, at the kept end |
| Chunks.TrimmedIsOwned | pwdfinder.cpp:67-85 | the trimmed part of the buffer is the range the rank keeps |
| Chunks.KeptBytes | pwdfinder.cpp:85 | the buffer between the two stops is the file between the kept start and end |
| Chunks.BufferNewline | pwdfinder.cpp:77-82 | the '\n' a trimming loop finds in the buffer is the file's first '\n' from the same place |
| Finder.Run | pwdfinder.cpp:163-240 | exit 1 on `argc != 3`, 2 when the input does not open, 3 when the result file does not open, 4 when the hash is not 13 characters, checked in that order. Exit 0 exactly when all checks pass. Nothing is written on an error. On success, a password line is written exactly when the search found a word, followed by the time line on rank 0 |
| Finder.ReportedPasswordIsCandidate | pwdfinder.cpp:137-150 | a reported password is a line of the rank's range, passes both gates, and its hash equals the target |

## Left out

- MPI plumbing is not modelled: opening, reading and writing files, `MPI_File_seek`, the delete-on-close open of `result`, `MPI_Isend` to the peers and `MPI_Barrier`. Only one rank is modelled at a time. The read is the function `Chunks.ReadAt`, and the result file is the list of lines `Finder.Run` returns.
- Concurrency between ranks is not modelled. Two ranks can both match before either sees a notice, so "at most one password line" is not a property of the program.
- `MPI_Iprobe` is the parameter `cancelAfter`: the number of probes before a notice is seen. When the notice arrives is outside the model.
- `crypt` and DES are not modelled. The hash is a parameter `crypt(word, salt)`, compared with the target by string equality (`strcmp`).
- `MPI_Wtime`, the elapsed time and its `%.2f` formatting are floating point. The time line is only the marker `SearchingTime`.
- The text of the messages on stderr is not modelled. A rejected word becomes a `Diagnostic` naming the word and the gate, and `main`'s usage and open-error messages are not modelled at all.
- The memory defects are not modelled: the 13-byte `cmp_res` that receives 14 bytes, `out_buffer[70]`, and `delete` used for arrays.
- Chunks.ProcessInChunks: requires `RankReadable`. This means a non-last rank reads at least one nominal byte, and its boundary '\n' lies in the file inside its overlap. A last rank other than rank 0 also finds a '\n'. The code does not check this. When it fails, a trimming loop reads past the bytes that came from the file (or before the buffer when `F < N`), and that behaviour is not modelled.
- Chunks.ProcessInChunks: also requires `ReadFitsInt`. `chunk_size` is narrowed to `int` in `locstart`/`locend` (pwdfinder.cpp:73), in `i` (pwdfinder.cpp:87) and in the count passed to `MPI_File_read_at_all` (pwdfinder.cpp:70). A read of 2^31-1 bytes or more would wrap these, and that is not modelled. The job-level lemmas in `Partition` are about the offsets as unbounded integers.
- Chunks.ReadAt: the bytes a short read leaves past the end of the file are the parameter `junk`. Under `RankReadable` no loop ever reads them.
- Words.IsAlpha: `isalpha`, `isdigit` and `isspace` are taken in the C locale over 7-bit characters. Negative `char` values passed to them (undefined behaviour in C) are not modelled.
- Finder.Run: `strlen(argv[2])` is the length of the argument string. Arguments are assumed to hold no NUL byte.
- pwdcrypter.cpp and pwdchecker.cpp are each a single `crypt` call behind an argument check, and are not part of this model.

## Findings

| source | as written | input that shows it | evidently intended | confidence | as-written member | corrected member |
|---|---|---|---|---|---|---|
| pwdfinder.cpp:76-83 | Rank r stops at the first '\n' at or after its nominal end. Rank r+1 always skips to one past the first '\n' at or after its own start. When the byte at rank r's nominal end is a '\n', the line right after it is kept by no rank | file "a\nb\n", 2 ranks, delta 100: rank 0 keeps "a\n", rank 1 keeps nothing, and "b" is never hashed | every line is searched by exactly one rank. Rank r+1 should search for its '\n' from one byte before its start | not executed | Partition.LineLostAtNewlineBoundary, Partition.DroppedLineExample | Partition.RepairedPartitionTiles, Partition.RepairedScansEveryLine |
| pwdfinder.cpp:127-134 | When a word fails both gates, only `flag_len_err` is cleared. `flag_sym_err` stays up, so the next word is rejected for bad symbols before it is checked | words: 40 commas, then "bob", with crypt("bob", target) == target. "bob" is reported as a bad-symbols word and never hashed | each word is judged on its own, so both flags are cleared after every word | not executed | Search.CarriedFlagHidesMatch | Search.RepairedScanFindsFirstMatch, Search.RepairedScanGate |
