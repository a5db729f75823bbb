/** What the word loop of `process_in_chunks` does with the candidate words of
    its range, stated as a function over the list of words: the two gates, the
    diagnostics, the calls to the hash oracle, the early exit on a match and the
    stop on a peer's cancellation notice. */
module Search {
  import opened Words

  /** A diagnostic written to stderr for a rejected word. */
  datatype Diagnostic = LengthError(word: string) | BadSymbolsError(word: string)

  /** `found` is what the scan returns ("" when nothing matched); `diagnostics`
      are the rejections in order; `hashed` are the words handed to the oracle,
      in order. */
  datatype ScanResult = ScanResult(found: string, diagnostics: seq<Diagnostic>, hashed: seq<string>)

  /** A scan result preceded by the diagnostics and oracle calls made before. */
  function Extend(diagnostics: seq<Diagnostic>, hashed: seq<string>, r: ScanResult): ScanResult
  {
    ScanResult(r.found, diagnostics + r.diagnostics, hashed + r.hashed)
  }

  /** The scan of `words` as the code runs it. `carried` is the symbol flag left
      over from the previous word, `consumed` the number of words already taken,
      and a peer's cancellation notice is seen from the `cancelAfter`-th word on.
      `crypt(word, target)` is the hash oracle. */
  function Scan(words: seq<string>, carried: bool, consumed: nat, cancelAfter: nat,
                crypt: (string, string) -> string, target: string): ScanResult
    decreases |words|
  {
    if words == [] || consumed >= cancelAfter then ScanResult("", [], [])
    else
      var w := words[0];
      var symErr := carried || HasBadChar(w);
      if IsTooLong(w) then
        // only the length flag is cleared: the symbol flag is carried over
        Extend([LengthError(w)], [], Scan(words[1..], symErr, consumed + 1, cancelAfter, crypt, target))
      else if symErr then
        Extend([BadSymbolsError(w)], [], Scan(words[1..], false, consumed + 1, cancelAfter, crypt, target))
      else if crypt(w, target) == target then
        ScanResult(w, [], [w])
      else
        Extend([], [w], Scan(words[1..], false, consumed + 1, cancelAfter, crypt, target))
  }

  /** The scan of a word followed by more words, one step unfolded. */
  lemma ScanCons(w: string, rest: seq<string>, carried: bool, consumed: nat, cancelAfter: nat,
                 crypt: (string, string) -> string, target: string)
    requires consumed < cancelAfter
    ensures var symErr := carried || HasBadChar(w);
      Scan([w] + rest, carried, consumed, cancelAfter, crypt, target)
      == if IsTooLong(w) then
           Extend([LengthError(w)], [], Scan(rest, symErr, consumed + 1, cancelAfter, crypt, target))
         else if symErr then
           Extend([BadSymbolsError(w)], [], Scan(rest, false, consumed + 1, cancelAfter, crypt, target))
         else if crypt(w, target) == target then
           ScanResult(w, [], [w])
         else
           Extend([], [w], Scan(rest, false, consumed + 1, cancelAfter, crypt, target))
  {
    assert ([w] + rest)[0] == w && ([w] + rest)[1..] == rest;
  }

  lemma ExtendTwice(d: seq<Diagnostic>, h: seq<string>, d': seq<Diagnostic>, h': seq<string>, r: ScanResult)
    ensures Extend(d, h, Extend(d', h', r)) == Extend(d + d', h + h', r)
  {
    assert d + (d' + r.diagnostics) == (d + d') + r.diagnostics;
    assert h + (h' + r.hashed) == (h + h') + r.hashed;
  }

  /** Nothing before a result leaves it unchanged. */
  lemma ExtendNothing(r: ScanResult)
    ensures Extend([], [], r) == r
  {
    assert [] + r.diagnostics == r.diagnostics && [] + r.hashed == r.hashed;
  }

  /** The diagnostics and oracle calls made before an empty scan are all there is. */
  lemma ExtendDone(d: seq<Diagnostic>, h: seq<string>)
    ensures Extend(d, h, ScanResult("", [], [])) == ScanResult("", d, h)
  {
    assert d + [] == d && h + [] == h;
  }

  /** What the loop knows after taking one word: the scan so far, extended by
      the step the word's flags select, is still the whole scan. */
  lemma ScanStep(d: seq<Diagnostic>, h: seq<string>, all: ScanResult, w: string, rest: seq<string>,
                 carried: bool, consumed: nat, cancelAfter: nat,
                 crypt: (string, string) -> string, target: string)
    requires consumed < cancelAfter
    requires Extend(d, h, Scan([w] + rest, carried, consumed, cancelAfter, crypt, target)) == all
    ensures var symErr := carried || HasBadChar(w);
      && (IsTooLong(w) ==>
            Extend(d + [LengthError(w)], h, Scan(rest, symErr, consumed + 1, cancelAfter, crypt, target)) == all)
      && (!IsTooLong(w) && symErr ==>
            Extend(d + [BadSymbolsError(w)], h, Scan(rest, false, consumed + 1, cancelAfter, crypt, target)) == all)
      && (!IsTooLong(w) && !symErr && crypt(w, target) != target ==>
            Extend(d, h + [w], Scan(rest, false, consumed + 1, cancelAfter, crypt, target)) == all)
      && (!IsTooLong(w) && !symErr && crypt(w, target) == target ==>
            ScanResult(w, d, h + [w]) == all)
  {
    ScanCons(w, rest, carried, consumed, cancelAfter, crypt, target);
    var symErr := carried || HasBadChar(w);
    var next := if IsTooLong(w) then symErr else false;
    var after := Scan(rest, next, consumed + 1, cancelAfter, crypt, target);
    if IsTooLong(w) {
      ExtendTwice(d, h, [LengthError(w)], [], after);
      assert h + [] == h;
    } else if symErr {
      ExtendTwice(d, h, [BadSymbolsError(w)], [], after);
      assert h + [] == h;
    } else if crypt(w, target) != target {
      ExtendTwice(d, h, [], [w], after);
      assert d + [] == d;
    } else {
      assert d + [] == d;
    }
  }

  /** The validation gate: only words shorter than 40 characters without a bad
      character reach the oracle; a length diagnostic names a word of 40 or more
      characters (also when it has bad characters), a symbol diagnostic a shorter
      one; every word reported or hashed is one of the candidates. */
  lemma {:induction false} ScanGate(words: seq<string>, carried: bool, consumed: nat, cancelAfter: nat,
                                    crypt: (string, string) -> string, target: string)
    ensures var r := Scan(words, carried, consumed, cancelAfter, crypt, target);
      && (forall w :: w in r.hashed ==> IsValidWord(w) && w in words)
      && (forall d :: d in r.diagnostics ==> d.word in words)
      && (forall d :: d in r.diagnostics && d.LengthError? ==> IsTooLong(d.word))
      && (forall d :: d in r.diagnostics && d.BadSymbolsError? ==> !IsTooLong(d.word))
    decreases |words|
  {
    if words != [] && consumed < cancelAfter {
      var w := words[0];
      var symErr := carried || HasBadChar(w);
      var next := if IsTooLong(w) then symErr else false;
      ScanGate(words[1..], next, consumed + 1, cancelAfter, crypt, target);
      assert forall v :: v in words[1..] ==> v in words;
    }
  }

  /** The search result: a nonempty result is the last word handed to the oracle
      and its hash equals the target; every word hashed before it missed; and a
      last hashed word whose hash equals the target is the result. So a matching
      empty word gives "" just as no match does. */
  lemma ScanFirstMatch(words: seq<string>, carried: bool, consumed: nat, cancelAfter: nat,
                       crypt: (string, string) -> string, target: string)
    ensures var r := Scan(words, carried, consumed, cancelAfter, crypt, target);
      && (r.found != "" ==> r.hashed != [] && r.found == r.hashed[|r.hashed| - 1])
      && (r.hashed != [] && crypt(r.hashed[|r.hashed| - 1], target) == target ==> r.found == r.hashed[|r.hashed| - 1])
      && (r.hashed != [] ==> r.found == r.hashed[|r.hashed| - 1] || r.found == "")
      && (forall i :: 0 <= i < |r.hashed| - 1 ==> crypt(r.hashed[i], target) != target)
      && (r.found != "" ==> crypt(r.found, target) == target)
  {
    ScanFoundIsLastHashed(words, carried, consumed, cancelAfter, crypt, target);
    ScanEarlierHashesMiss(words, carried, consumed, cancelAfter, crypt, target);
  }

  /** A nonempty result is the last word hashed, and its hash is the target; a
      last hashed word whose hash is the target is the result. */
  lemma {:induction false} ScanFoundIsLastHashed(words: seq<string>, carried: bool, consumed: nat,
                                                 cancelAfter: nat, crypt: (string, string) -> string,
                                                 target: string)
    ensures var r := Scan(words, carried, consumed, cancelAfter, crypt, target);
      && (r.found != "" ==> r.hashed != [] && r.found == r.hashed[|r.hashed| - 1])
      && (r.hashed != [] && crypt(r.hashed[|r.hashed| - 1], target) == target ==> r.found == r.hashed[|r.hashed| - 1])
      && (r.hashed != [] ==> r.found == r.hashed[|r.hashed| - 1] || r.found == "")
      && (r.found != "" ==> crypt(r.found, target) == target)
    decreases |words|
  {
    if words != [] && consumed < cancelAfter {
      var w := words[0];
      var symErr := carried || HasBadChar(w);
      var next := if IsTooLong(w) then symErr else false;
      ScanFoundIsLastHashed(words[1..], next, consumed + 1, cancelAfter, crypt, target);
      var rest := Scan(words[1..], next, consumed + 1, cancelAfter, crypt, target);
      if !IsTooLong(w) && !symErr && crypt(w, target) != target && rest.hashed != [] {
        var r := Extend([], [w], rest);
        assert r.hashed[|r.hashed| - 1] == rest.hashed[|rest.hashed| - 1];
      }
    }
  }

  /** Every hash in `hashed` but the last one misses the target. */
  predicate MissesBeforeLast(hashed: seq<string>, crypt: (string, string) -> string, target: string)
  {
    forall i :: 0 <= i < |hashed| - 1 ==> crypt(hashed[i], target) != target
  }

  /** Every word hashed before the last one missed the target. */
  lemma {:induction false} ScanEarlierHashesMiss(words: seq<string>, carried: bool, consumed: nat,
                                                 cancelAfter: nat, crypt: (string, string) -> string,
                                                 target: string)
    ensures MissesBeforeLast(Scan(words, carried, consumed, cancelAfter, crypt, target).hashed, crypt, target)
    decreases |words|
  {
    if words != [] && consumed < cancelAfter {
      var w := words[0];
      var symErr := carried || HasBadChar(w);
      var next := if IsTooLong(w) then symErr else false;
      ScanEarlierHashesMiss(words[1..], next, consumed + 1, cancelAfter, crypt, target);
      var rest := Scan(words[1..], next, consumed + 1, cancelAfter, crypt, target);
      var r := Scan(words, carried, consumed, cancelAfter, crypt, target);
      if IsTooLong(w) || symErr {
        assert r.hashed == [] + rest.hashed == rest.hashed;
      } else if crypt(w, target) != target {
        assert r.hashed == [w] + rest.hashed;
        forall i | 0 <= i < |r.hashed| - 1 ensures crypt(r.hashed[i], target) != target {
          if i > 0 {
            assert r.hashed[i] == rest.hashed[i - 1];
          }
        }
      }
    }
  }

  /** Number of words a scan took: each is either rejected or hashed. */
  function Taken(r: ScanResult): nat
  {
    |r.diagnostics| + |r.hashed|
  }

  /** Whether the last word hashed matched the target. */
  predicate EndsWithMatch(r: ScanResult, crypt: (string, string) -> string, target: string)
  {
    r.hashed != [] && crypt(r.hashed[|r.hashed| - 1], target) == target
  }

  /** Cancellation and exhaustion: the scan takes at most one word per probe
      before the notice is seen and at most all the words; without a notice it
      takes every word unless it stops at a match. */
  lemma ScanStops(words: seq<string>, carried: bool, consumed: nat, cancelAfter: nat,
                  crypt: (string, string) -> string, target: string)
    ensures var r := Scan(words, carried, consumed, cancelAfter, crypt, target);
      && Taken(r) <= |words|
      && (consumed <= cancelAfter ==> consumed + Taken(r) <= cancelAfter)
      && (consumed + |words| <= cancelAfter ==> Taken(r) == |words| || EndsWithMatch(r, crypt, target))
  {
    ScanTakesAtMost(words, carried, consumed, cancelAfter, crypt, target);
    if consumed + |words| <= cancelAfter {
      ScanTakesAll(words, carried, consumed, cancelAfter, crypt, target);
    }
  }

  /** The scan takes at most all the words, and at most one per probe before the
      notice is seen. */
  lemma {:induction false} ScanTakesAtMost(words: seq<string>, carried: bool, consumed: nat, cancelAfter: nat,
                                           crypt: (string, string) -> string, target: string)
    ensures Taken(Scan(words, carried, consumed, cancelAfter, crypt, target)) <= |words|
    ensures consumed <= cancelAfter ==>
      consumed + Taken(Scan(words, carried, consumed, cancelAfter, crypt, target)) <= cancelAfter
    decreases |words|
  {
    if words != [] && consumed < cancelAfter {
      var w := words[0];
      var symErr := carried || HasBadChar(w);
      var next := if IsTooLong(w) then symErr else false;
      ScanTakesAtMost(words[1..], next, consumed + 1, cancelAfter, crypt, target);
    }
  }

  /** Without a notice the scan takes every word unless it stops at a match. */
  lemma {:induction false} ScanTakesAll(words: seq<string>, carried: bool, consumed: nat, cancelAfter: nat,
                                        crypt: (string, string) -> string, target: string)
    requires consumed + |words| <= cancelAfter
    ensures var r := Scan(words, carried, consumed, cancelAfter, crypt, target);
      Taken(r) == |words| || EndsWithMatch(r, crypt, target)
    decreases |words|
  {
    if words != [] {
      var w := words[0];
      var symErr := carried || HasBadChar(w);
      var next := if IsTooLong(w) then symErr else false;
      ScanTakesAll(words[1..], next, consumed + 1, cancelAfter, crypt, target);
      var rest := Scan(words[1..], next, consumed + 1, cancelAfter, crypt, target);
      var r := Scan(words, carried, consumed, cancelAfter, crypt, target);
      if IsTooLong(w) || symErr {
        assert r.hashed == [] + rest.hashed == rest.hashed;
      } else if crypt(w, target) != target {
        assert r.hashed == [w] + rest.hashed;
        if rest.hashed != [] {
          assert r.hashed[|r.hashed| - 1] == rest.hashed[|rest.hashed| - 1];
        }
      }
    }
  }

  /** How the scan treated a word it took: a word of 40 or more characters got
      a length diagnostic, a shorter word with a bad character a symbol
      diagnostic, and a valid word was handed to the oracle or, when the flag
      carried over from before, got a symbol diagnostic. */
  predicate Judged(w: string, r: ScanResult)
  {
    && (IsTooLong(w) ==> LengthError(w) in r.diagnostics)
    && (!IsTooLong(w) && HasBadChar(w) ==> BadSymbolsError(w) in r.diagnostics)
    && (IsValidWord(w) ==> w in r.hashed || BadSymbolsError(w) in r.diagnostics)
  }

  /** Every word among the first `Taken(r)` was judged by `r`. */
  predicate AllJudged(words: seq<string>, r: ScanResult)
  {
    Taken(r) <= |words| && forall i :: 0 <= i < Taken(r) ==> Judged(words[i], r)
  }

  /** The scan takes its words in order and judges each one it takes: no word of
      40 or more characters and no word with a bad character is taken silently. */
  lemma {:induction false} ScanJudgesEveryWord(words: seq<string>, carried: bool, consumed: nat,
                                               cancelAfter: nat, crypt: (string, string) -> string,
                                               target: string)
    ensures AllJudged(words, Scan(words, carried, consumed, cancelAfter, crypt, target))
    decreases |words|
  {
    if words != [] && consumed < cancelAfter {
      var w := words[0];
      var symErr := carried || HasBadChar(w);
      var next := if IsTooLong(w) then symErr else false;
      ScanJudgesEveryWord(words[1..], next, consumed + 1, cancelAfter, crypt, target);
      var rest := Scan(words[1..], next, consumed + 1, cancelAfter, crypt, target);
      var r := Scan(words, carried, consumed, cancelAfter, crypt, target);
      if IsTooLong(w) || symErr || crypt(w, target) != target {
        var d := if IsTooLong(w) then [LengthError(w)] else if symErr then [BadSymbolsError(w)] else [];
        var h := if IsTooLong(w) || symErr then [] else [w];
        assert r == Extend(d, h, rest);
        assert Taken(r) == Taken(rest) + 1;
        forall i | 0 <= i < Taken(r) ensures Judged(words[i], r) {
          if i > 0 {
            assert words[i] == words[1..][i - 1];
            assert Judged(words[1..][i - 1], rest);
          }
        }
      }
    }
  }

  /** No candidate is both too long and has a bad character: the case in which
      the symbol flag carries over into the next word never arises. */
  predicate NoDoubleFailure(words: seq<string>)
  {
    forall i :: 0 <= i < |words| ==> !(IsTooLong(words[i]) && HasBadChar(words[i]))
  }

  /** When no candidate fails both gates, the scan as written is the repaired
      scan. */
  lemma {:induction false} ScanIsRepaired(words: seq<string>, consumed: nat, cancelAfter: nat,
                                          crypt: (string, string) -> string, target: string)
    requires NoDoubleFailure(words)
    ensures Scan(words, false, consumed, cancelAfter, crypt, target)
      == RepairedScan(words, consumed, cancelAfter, crypt, target)
    decreases |words|
  {
    if words != [] && consumed < cancelAfter {
      assert !(IsTooLong(words[0]) && HasBadChar(words[0]));
      assert NoDoubleFailure(words[1..]) by {
        forall i | 0 <= i < |words[1..]| ensures !(IsTooLong(words[1..][i]) && HasBadChar(words[1..][i])) {
          assert words[1..][i] == words[i + 1];
        }
      }
      ScanIsRepaired(words[1..], consumed + 1, cancelAfter, crypt, target);
    }
  }

  /** When no candidate fails both gates and no notice arrives, the scan returns
      the first valid candidate whose hash equals the target. */
  lemma ScanFindsFirstMatch(words: seq<string>, consumed: nat, cancelAfter: nat,
                            crypt: (string, string) -> string, target: string, j: nat)
    requires NoDoubleFailure(words)
    requires consumed + |words| <= cancelAfter
    requires j < |words| && IsValidWord(words[j]) && crypt(words[j], target) == target
    requires forall i :: 0 <= i < j ==> !(IsValidWord(words[i]) && crypt(words[i], target) == target)
    ensures var r := Scan(words, false, consumed, cancelAfter, crypt, target);
      r.found == words[j] && r.hashed != [] && r.hashed[|r.hashed| - 1] == words[j]
  {
    ScanIsRepaired(words, consumed, cancelAfter, crypt, target);
    RepairedScanFindsFirstMatch(words, consumed, cancelAfter, crypt, target, j);
  }

  /** When no candidate fails both gates, a symbol diagnostic names a word with a
      bad character, and every valid word the scan took was handed to the oracle. */
  lemma ScanGateExact(words: seq<string>, consumed: nat, cancelAfter: nat,
                      crypt: (string, string) -> string, target: string)
    requires NoDoubleFailure(words)
    ensures var r := Scan(words, false, consumed, cancelAfter, crypt, target);
      && (forall d :: d in r.diagnostics && d.BadSymbolsError? ==> HasBadChar(d.word))
      && Taken(r) <= |words|
      && (forall i :: 0 <= i < Taken(r) && IsValidWord(words[i]) ==> words[i] in r.hashed)
  {
    ScanIsRepaired(words, consumed, cancelAfter, crypt, target);
    RepairedScanGate(words, consumed, cancelAfter, crypt, target);
  }

  /** A candidate of 40 commas: too long, and ',' is a bad character. */
  function Commas40(): (w: string)
    ensures |w| == 40 && IsTooLong(w) && HasBadChar(w)
  {
    var w := seq(40, _ => ',');
    assert w[0] == ',' && IsBadChar(',');
    w
  }

  /** The carried-over symbol flag: after a word that fails both gates, the next
      word is rejected as "Bad symbols" even when it is valid and its hash equals
      the target, so the password is not found. */
  lemma CarriedFlagHidesMatch(crypt: (string, string) -> string, target: string)
    requires crypt("bob", target) == target
    ensures var r := Scan([Commas40(), "bob"], false, 0, 2, crypt, target);
      && r.found == "" && r.hashed == []
      && r.diagnostics == [LengthError(Commas40()), BadSymbolsError("bob")]
    ensures IsValidWord("bob")
  {
    var words := [Commas40(), "bob"];
    assert !HasBadChar("bob") by {
      forall i | 0 <= i < 3 ensures !IsBadChar("bob"[i]) {
        assert IsAlpha("bob"[i]);
      }
    }
    assert words[1..] == ["bob"];
    assert ["bob"][1..] == [];
    assert Scan(["bob"], true, 1, 2, crypt, target)
      == Extend([BadSymbolsError("bob")], [], Scan([], false, 2, 2, crypt, target));
  }

  // ---------------------------------------------------------------------
  // The evidently intended scan: both flags are cleared after every word.

  /** The scan with each word judged on its own. */
  function RepairedScan(words: seq<string>, consumed: nat, cancelAfter: nat,
                        crypt: (string, string) -> string, target: string): ScanResult
    decreases |words|
  {
    if words == [] || consumed >= cancelAfter then ScanResult("", [], [])
    else
      var w := words[0];
      if IsTooLong(w) then
        Extend([LengthError(w)], [], RepairedScan(words[1..], consumed + 1, cancelAfter, crypt, target))
      else if HasBadChar(w) then
        Extend([BadSymbolsError(w)], [], RepairedScan(words[1..], consumed + 1, cancelAfter, crypt, target))
      else if crypt(w, target) == target then
        ScanResult(w, [], [w])
      else
        Extend([], [w], RepairedScan(words[1..], consumed + 1, cancelAfter, crypt, target))
  }

  /** Without cancellation the repaired scan returns the first valid candidate
      whose hash equals the target, whatever the words before it are. */
  lemma {:induction false} RepairedScanFindsFirstMatch(words: seq<string>, consumed: nat, cancelAfter: nat,
                                                       crypt: (string, string) -> string, target: string, j: nat)
    requires consumed + |words| <= cancelAfter
    requires j < |words| && IsValidWord(words[j]) && crypt(words[j], target) == target
    requires forall i :: 0 <= i < j ==> !(IsValidWord(words[i]) && crypt(words[i], target) == target)
    ensures var r := RepairedScan(words, consumed, cancelAfter, crypt, target);
      r.found == words[j] && r.hashed != [] && r.hashed[|r.hashed| - 1] == words[j]
    decreases |words|
  {
    if j > 0 {
      var w := words[0];
      assert !(IsValidWord(w) && crypt(w, target) == target);
      forall i | 0 <= i < j - 1
        ensures !(IsValidWord(words[1..][i]) && crypt(words[1..][i], target) == target)
      {
        assert words[1..][i] == words[i + 1];
      }
      RepairedScanFindsFirstMatch(words[1..], consumed + 1, cancelAfter, crypt, target, j - 1);
      var rest := RepairedScan(words[1..], consumed + 1, cancelAfter, crypt, target);
      if !IsTooLong(w) && !HasBadChar(w) {
        var r := Extend([], [w], rest);
        assert r.hashed[|r.hashed| - 1] == rest.hashed[|rest.hashed| - 1];
      }
    }
  }

  /** The repaired gate: a symbol diagnostic names a word shorter than 40
      characters with a bad character, a length diagnostic a word of 40 or more,
      and every valid word the scan took was handed to the oracle. */
  lemma {:induction false} RepairedScanGate(words: seq<string>, consumed: nat, cancelAfter: nat,
                                            crypt: (string, string) -> string, target: string)
    ensures var r := RepairedScan(words, consumed, cancelAfter, crypt, target);
      && (forall d :: d in r.diagnostics && d.BadSymbolsError? ==> !IsTooLong(d.word) && HasBadChar(d.word))
      && (forall d :: d in r.diagnostics && d.LengthError? ==> IsTooLong(d.word))
      && Taken(r) <= |words|
      && (forall i :: 0 <= i < Taken(r) && IsValidWord(words[i]) ==> words[i] in r.hashed)
    decreases |words|
  {
    if words != [] && consumed < cancelAfter {
      var w := words[0];
      RepairedScanGate(words[1..], consumed + 1, cancelAfter, crypt, target);
      var rest := RepairedScan(words[1..], consumed + 1, cancelAfter, crypt, target);
      var r := RepairedScan(words, consumed, cancelAfter, crypt, target);
      if IsTooLong(w) || HasBadChar(w) || crypt(w, target) != target {
        var d := if IsTooLong(w) then [LengthError(w)] else if HasBadChar(w) then [BadSymbolsError(w)] else [];
        var h := if IsTooLong(w) || HasBadChar(w) then [] else [w];
        assert r == Extend(d, h, rest);
        assert Taken(r) == Taken(rest) + 1;
        forall i | 0 <= i < Taken(r) && IsValidWord(words[i]) ensures words[i] in r.hashed {
          if i > 0 {
            assert words[i] == words[1..][i - 1];
          }
        }
      }
    }
  }
}
