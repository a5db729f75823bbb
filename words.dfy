/** Text helpers of the password finder: locating line separators, splitting a
    buffer into candidate words, and the character classes of the word gates. */
module Words {

  /** Index of the first '\n' at or after `k`, or `|s|` when there is none
      (that no '\n' comes earlier is `NextNewlineSkips`). */
  function NextNewline(s: seq<char>, k: nat): (p: nat)
    requires k <= |s|
    ensures k <= p <= |s|
    ensures p < |s| ==> s[p] == '\n'
    decreases |s| - k
  {
    if k == |s| then k
    else if s[k] == '\n' then k
    else NextNewline(s, k + 1)
  }

  /** No '\n' lies between `k` and `NextNewline(s, k)`. */
  lemma {:induction false} NextNewlineSkips(s: seq<char>, k: nat)
    requires k <= |s|
    ensures forall j :: k <= j < NextNewline(s, k) ==> s[j] != '\n'
    decreases |s| - k
  {
    if k < |s| && s[k] != '\n' {
      NextNewlineSkips(s, k + 1);
    }
  }

  /** A '\n' at or after `k` lies at or after `NextNewline(s, k)`. */
  lemma NextNewlineBefore(s: seq<char>, k: nat, j: nat)
    requires k <= j < |s| && s[j] == '\n'
    ensures NextNewline(s, k) <= j
  {
    NextNewlineSkips(s, k);
  }

  /** Any position that has the three properties of `NextNewline` is `NextNewline`. */
  lemma {:induction false} NextNewlineAt(s: seq<char>, k: nat, p: nat)
    requires k <= p <= |s|
    requires p < |s| ==> s[p] == '\n'
    requires forall j :: k <= j < p ==> s[j] != '\n'
    ensures NextNewline(s, k) == p
    decreases p - k
  {
    if k < p {
      NextNewlineAt(s, k + 1, p);
    }
  }

  /** The candidate words of a trimmed buffer: its '\n'-separated segments. A
      final segment without a terminator is a word too; a trailing '\n' does not
      start an empty one; an empty line is the empty word. */
  function Lines(s: seq<char>): (ws: seq<string>)
    ensures s != [] ==> ws != []
    decreases |s|
  {
    if s == [] then []
    else
      var p := NextNewline(s, 0);
      if p == |s| then [s] else [s[..p]] + Lines(s[p + 1..])
  }

  /** Writes every word followed by its '\n' terminator. */
  function Unlines(ws: seq<string>): (s: seq<char>)
    ensures s == [] || s[|s| - 1] == '\n'
    ensures |s| >= |ws|
  {
    if ws == [] then [] else ws[0] + ['\n'] + Unlines(ws[1..])
  }

  /** One step of `Lines`: the first word ends at the first '\n'. */
  lemma LinesSplit(s: seq<char>, p: nat)
    requires p < |s| && s[p] == '\n'
    requires forall j :: 0 <= j < p ==> s[j] != '\n'
    ensures Lines(s) == [s[..p]] + Lines(s[p + 1..])
  {
    NextNewlineAt(s, 0, p);
  }

  /** A nonempty buffer without '\n' is a single word. */
  lemma LinesSingle(s: seq<char>)
    requires s != []
    requires forall j :: 0 <= j < |s| ==> s[j] != '\n'
    ensures Lines(s) == [s]
  {
    NextNewlineAt(s, 0, |s|);
  }

  /** Splitting what `Unlines` wrote gives the words back. */
  lemma {:induction false} LinesUnlines(ws: seq<string>)
    requires forall w :: w in ws ==> '\n' !in w
    ensures Lines(Unlines(ws)) == ws
    decreases |ws|
  {
    if ws != [] {
      var w, rest := ws[0], ws[1..];
      var s := w + ['\n'] + Unlines(rest);
      calc {
        Lines(Unlines(ws));
      == { assert Unlines(ws) == s; }
        Lines(s);
      == { assert w in ws;
           forall j | 0 <= j < |w| ensures s[j] != '\n' { assert s[j] == w[j]; }
           LinesSplit(s, |w|);
           assert s[..|w|] == w;
           assert s[|w| + 1..] == Unlines(rest); }
        [w] + Lines(Unlines(rest));
      == { assert forall v :: v in rest ==> v in ws;
           LinesUnlines(rest); }
        [w] + rest;
      }
    }
  }

  /** Splitting and re-joining gives the buffer back, with a '\n' added when the
      buffer did not end with one: only '\n' separates words; spaces, tabs and
      '\r' stay inside them. */
  lemma {:induction false} UnlinesLines(s: seq<char>)
    ensures Unlines(Lines(s)) == if s == [] || s[|s| - 1] == '\n' then s else s + ['\n']
    decreases |s|
  {
    if s != [] {
      var p := NextNewline(s, 0);
      NextNewlineSkips(s, 0);
      if p == |s| {
        LinesSingle(s);
        assert Unlines([s]) == s + ['\n'] + Unlines([]);
      } else {
        var rest := s[p + 1..];
        calc {
          Unlines(Lines(s));
        == { LinesSplit(s, p); }
          Unlines([s[..p]] + Lines(rest));
        == { assert ([s[..p]] + Lines(rest))[1..] == Lines(rest); }
          s[..p] + ['\n'] + Unlines(Lines(rest));
        == { UnlinesLines(rest);
             assert rest != [] ==> rest[|rest| - 1] == s[|s| - 1];
             assert s[|s| - 1] == '\n' <==> rest == [] || rest[|rest| - 1] == '\n'; }
          s[..p] + ['\n'] + (if s[|s| - 1] == '\n' then rest else rest + ['\n']);
        == { assert s == s[..p] + ['\n'] + rest; }
          if s[|s| - 1] == '\n' then s else s + ['\n'];
        }
      }
    }
  }

  /** A buffer cut right after a '\n' splits into the words of the two halves. */
  lemma {:induction false} LinesAppend(a: seq<char>, b: seq<char>)
    requires a == [] || a[|a| - 1] == '\n'
    ensures Lines(a + b) == Lines(a) + Lines(b)
    decreases |a|
  {
    if a == [] {
      assert a + b == b;
    } else {
      var p := NextNewline(a, 0);
      NextNewlineBefore(a, 0, |a| - 1);
      NextNewlineSkips(a, 0);
      var w, a' := a[..p], a[p + 1..];
      FirstLineOfAppend(a, b, p);
      LinesAppend(a', b);
      LinesSplit(a, p);
      AppendAssoc([w], Lines(a'), Lines(b));
    }
  }

  lemma AppendAssoc<T>(x: seq<T>, y: seq<T>, z: seq<T>)
    ensures x + (y + z) == (x + y) + z
  {
  }

  /** The first word of `a + b` when `a` holds a '\n'. */
  lemma FirstLineOfAppend(a: seq<char>, b: seq<char>, p: nat)
    requires p < |a| && a[p] == '\n'
    requires forall j :: 0 <= j < p ==> a[j] != '\n'
    ensures Lines(a + b) == [a[..p]] + Lines(a[p + 1..] + b)
  {
    var s := a + b;
    assert s[p] == '\n';
    forall j | 0 <= j < p ensures s[j] != '\n' {
      assert s[j] == a[j];
    }
    LinesSplit(s, p);
    assert s[..p] == a[..p];
    assert s[p + 1..] == a[p + 1..] + b;
  }

  // ---------------------------------------------------------------------
  // Character classes (C locale) and the two word gates.

  /** `allowed_sym`: 32 punctuation characters (no ','), of which the checking
      loop only looks at the first 31. */
  const AllowedSymbols: seq<char> :=
    ['!', '"', '#', '$', '%', ' ', '&', '\'', '(', ')', '*', '+', '-', '.', '/', ':', ';',
     '<', '=', '>', '?', '@', '[', '\\', ']', '^', '_', '`', '{', '|', '}', '~']

  /** Bound of the checking loop `for (k = 0; k < 31; k++)`. */
  const CheckedSymbols: nat := 31

  /** A word is rejected for length once 40 characters have been appended. */
  const MaxWordLength: nat := 40

  predicate IsAlpha(c: char) { 'A' <= c <= 'Z' || 'a' <= c <= 'z' }

  predicate IsDigit(c: char) { '0' <= c <= '9' }

  predicate IsSpace(c: char)
  {
    c == ' ' || c == '\t' || c == '\n' || c == '\U{B}' || c == '\U{C}' || c == '\r'
  }

  predicate IsAllowedSymbol(c: char)
  {
    c in AllowedSymbols[..CheckedSymbols]
  }

  /** A character that raises the symbol flag. */
  predicate IsBadChar(c: char)
  {
    !IsAlpha(c) && !IsDigit(c) && !IsAllowedSymbol(c)
  }

  predicate HasBadChar(w: string)
  {
    exists i :: 0 <= i < |w| && IsBadChar(w[i])
  }

  predicate IsTooLong(w: string)
  {
    |w| >= MaxWordLength
  }

  /** A word that passes both gates when judged on its own. */
  predicate IsValidWord(w: string)
  {
    !IsTooLong(w) && !HasBadChar(w)
  }

  lemma HasBadCharSnoc(w: string, c: char)
    ensures HasBadChar(w + [c]) <==> HasBadChar(w) || IsBadChar(c)
  {
    var v := w + [c];
    if HasBadChar(w) {
      var i :| 0 <= i < |w| && IsBadChar(w[i]);
      assert v[i] == w[i];
    }
    if IsBadChar(c) {
      assert v[|w|] == c;
    }
    if HasBadChar(v) {
      var i :| 0 <= i < |v| && IsBadChar(v[i]);
      if i < |w| {
        assert w[i] == v[i];
      }
    }
  }

  /** The loop over `allowed_sym` (run only for a character that is neither a
      letter nor a digit, while the flag is down): it leaves the flag raised
      exactly when the character is none of the 31 checked symbols. */
  method SymbolCheck(c: char) returns (flagSymErr: bool)
    ensures flagSymErr <==> !IsAllowedSymbol(c)
  {
    flagSymErr := false;
    var k := 0;
    while k < CheckedSymbols
      invariant 0 <= k <= CheckedSymbols
      invariant forall m :: 0 <= m < k ==> AllowedSymbols[m] != c
      invariant flagSymErr <==> k > 0
    {
      if AllowedSymbols[k] == c {
        flagSymErr := false;
        break;
      } else {
        flagSymErr := true;
      }
      k := k + 1;
    }
  }

  /** Consequences of the table and its loop bound: '~' sits at index 31 and is
      never compared, ',' is not in the table, space and '}' are accepted. */
  lemma CharsetBoundary()
    ensures IsBadChar('~') && IsBadChar(',')
    ensures !IsBadChar(' ') && !IsBadChar('}') && !IsBadChar('z') && !IsBadChar('0')
    ensures IsBadChar('\t') && IsBadChar('\r')
  {
    assert AllowedSymbols[..CheckedSymbols][5] == ' ';
    assert AllowedSymbols[..CheckedSymbols][30] == '}';
  }
}
