/** `main` of the password finder for one rank: the argument and file checks
    with their exit codes, the call of `process_in_chunks` with the fixed
    overlap, and the lines the rank writes to the result file. */
module Finder {
  import opened Words
  import opened Partition
  import opened Search
  import opened Chunks

  /** The overlap every rank but the last reads past its nominal range. */
  const Delta: nat := 100

  /** Length of a traditional DES `crypt` hash. */
  const HashLength: nat := 13

  /** A line written to the result file: the password with the rank that found
      it, or (rank 0 only, after the barrier) the searching time. */
  datatype ResultLine = PasswordFound(word: string, rank: nat) | SearchingTime

  /** Whether `main` gets past all four checks. */
  predicate ChecksPass(args: seq<string>, inputOpens: bool, resultOpens: bool)
  {
    |args| == 3 && inputOpens && resultOpens && |args[2]| == HashLength
  }

  /** One rank's run of `main`. `args` is `argv`, `dictionary` the contents of
      the input file and `inputOpens`/`resultOpens` whether the two opens
      succeed. The checks come in a fixed order, each with its own exit code;
      past them the rank searches its range with `argv[2]` as the target and
      writes a password line when it found one, and rank 0 then appends the
      searching time. */
  method Run(args: seq<string>, dictionary: seq<char>, inputOpens: bool, resultOpens: bool,
             rank: nat, procCnt: nat, crypt: (string, string) -> string, cancelAfter: nat, junk: char)
    returns (exitCode: int, written: seq<ResultLine>)
    requires ChecksPass(args, inputOpens, resultOpens) ==>
      RankReadable(dictionary, procCnt, rank, Delta) && ReadFitsInt(|dictionary|, procCnt, rank, Delta)
    ensures |args| != 3 ==> exitCode == 1
    ensures |args| == 3 && !inputOpens ==> exitCode == 2
    ensures |args| == 3 && inputOpens && !resultOpens ==> exitCode == 3
    ensures |args| == 3 && inputOpens && resultOpens && |args[2]| != HashLength ==> exitCode == 4
    ensures exitCode == 0 <==> ChecksPass(args, inputOpens, resultOpens)
    ensures exitCode != 0 ==> written == []
    ensures exitCode == 0 ==>
      var r := Scan(Lines(Owned(dictionary, procCnt, Delta, rank)), false, 0, cancelAfter, crypt, args[2]);
      written == (if r.found != "" then [PasswordFound(r.found, rank)] else [])
                 + (if rank == 0 then [SearchingTime] else [])
  {
    written := [];
    if |args| != 3 {
      return 1, written;
    }
    if !inputOpens {
      return 2, written;
    }
    if !resultOpens {
      return 3, written;
    }
    if |args[2]| != HashLength {
      return 4, written;
    }
    var res, diagnostics, hashed := ProcessInChunks(dictionary, rank, procCnt, Delta, args[2], crypt, cancelAfter, junk);
    if res != "" {
      written := written + [PasswordFound(res, rank)];
    }
    if rank == 0 {
      written := written + [SearchingTime];
    }
    exitCode := 0;
  }

  /** A password line names a line of the rank's range that passes both gates
      and whose hash is the target: the rank never reports a word it did not
      hash or one that missed. */
  lemma ReportedPasswordIsCandidate(dictionary: seq<char>, procCnt: nat, rank: nat,
                                    crypt: (string, string) -> string, cancelAfter: nat, target: string)
    requires RankReadable(dictionary, procCnt, rank, Delta)
    ensures var words := Lines(Owned(dictionary, procCnt, Delta, rank));
      var r := Scan(words, false, 0, cancelAfter, crypt, target);
      r.found != "" ==> r.found in words && IsValidWord(r.found) && crypt(r.found, target) == target
  {
    var words := Lines(Owned(dictionary, procCnt, Delta, rank));
    ScanGate(words, false, 0, cancelAfter, crypt, target);
    ScanFirstMatch(words, false, 0, cancelAfter, crypt, target);
    var r := Scan(words, false, 0, cancelAfter, crypt, target);
    if r.found != "" {
      assert r.found in r.hashed;
    }
  }
}
