/**
 * The puzzle collection: problem files 001.sgf .. 100.sgf in one directory,
 * the index read back from a path, the path built from an index, stepping to
 * the next problem, and the history of visited problems (app.js:112-127,
 * 172-183, 1158-1193).
 */
module PuzzleIndex {
  import opened Wrappers

  const SgfDir: string := "9x9 Endgame Book 1"
  const PuzzleCount: int := 100

  predicate IsDigit(c: char) {
    '0' <= c <= '9'
  }

  function DigitValue(c: char): int
    requires IsDigit(c)
  {
    c as int - '0' as int
  }

  function DigitChar(d: int): (c: char)
    requires 0 <= d < 10
    ensures IsDigit(c) && DigitValue(c) == d
  {
    ('0' as int + d) as char
  }

  /** `String(n)`: the decimal digits of n, without leading zeros. */
  function DecimalString(n: nat): (s: string)
    ensures 1 <= |s|
    ensures forall k :: 0 <= k < |s| ==> IsDigit(s[k])
    decreases n
  {
    if n < 10 then [DigitChar(n)] else DecimalString(n / 10) + [DigitChar(n % 10)]
  }

  /** `s.padStart(len, c)`. */
  function PadStart(s: string, len: nat, c: char): (r: string)
    ensures |r| == if |s| >= len then |s| else len
    ensures r[|r| - |s|..] == s
  {
    if |s| >= len then s else seq(len - |s|, _ => c) + s
  }

  /** The regular expression /\/(\d{3})\.sgf$/i: a slash, three digits and ".sgf" in any case, at the end. */
  predicate HasProblemSuffix(path: string) {
    var n := |path|;
    n >= 8 && path[n - 8] == '/' &&
    IsDigit(path[n - 7]) && IsDigit(path[n - 6]) && IsDigit(path[n - 5]) &&
    path[n - 4] == '.' &&
    (path[n - 3] == 's' || path[n - 3] == 'S') &&
    (path[n - 2] == 'g' || path[n - 2] == 'G') &&
    (path[n - 1] == 'f' || path[n - 1] == 'F')
  }

  /** The decimal value of the three captured digits. */
  function SuffixValue(path: string): int
    requires HasProblemSuffix(path)
  {
    var n := |path|;
    100 * DigitValue(path[n - 7]) + 10 * DigitValue(path[n - 6]) + DigitValue(path[n - 5])
  }

  /** parseProblemIndex: the captured number when it names a problem, else problem 1. */
  function ParseProblemIndex(path: string): (idx: int)
    ensures 1 <= idx <= PuzzleCount
  {
    if !HasProblemSuffix(path) then 1
    else
      var idx := SuffixValue(path);
      if idx < 1 || idx > PuzzleCount then 1 else idx
  }

  function Clamp(idx: int): int {
    if idx < 1 then 1 else if idx > PuzzleCount then PuzzleCount else idx
  }

  /** The decimal digits of a problem number, written out. */
  lemma SmallDecimal(n: int)
    requires 1 <= n <= PuzzleCount
    ensures DecimalString(n) ==
              if n < 10 then [DigitChar(n)]
              else if n < 100 then [DigitChar(n / 10), DigitChar(n % 10)]
              else ['1', '0', '0']
  {
    if 10 <= n < 100 {
      assert DecimalString(n / 10) == [DigitChar(n / 10)];
    } else if n == 100 {
      assert DecimalString(10) == [DigitChar(1), DigitChar(0)];
    }
  }

  /** The three zero-padded digits of a problem number, and their value. */
  lemma PaddedDigits(n: int)
    requires 1 <= n <= PuzzleCount
    ensures var s := PadStart(DecimalString(n), 3, '0');
            |s| == 3 && IsDigit(s[0]) && IsDigit(s[1]) && IsDigit(s[2]) &&
            100 * DigitValue(s[0]) + 10 * DigitValue(s[1]) + DigitValue(s[2]) == n
  {
    SmallDecimal(n);
    var s := PadStart(DecimalString(n), 3, '0');
    if n < 10 {
      assert s == ['0', '0', DigitChar(n)];
    } else if n < 100 {
      assert s == ['0', DigitChar(n / 10), DigitChar(n % 10)];
    } else {
      assert s == ['1', '0', '0'];
    }
  }

  /** sgfPathForIndex: the file of the problem, the index clamped to 1..100 and zero-padded. */
  function SgfPathForIndex(idx: int): (path: string)
    ensures |path| == |SgfDir| + 8
    ensures path[..|SgfDir| + 1] == SgfDir + "/"
    ensures path[|path| - 4..] == ".sgf"
  {
    var safe := Clamp(idx);
    PaddedDigits(safe);
    SgfDir + "/" + PadStart(DecimalString(safe), 3, '0') + ".sgf"
  }

  /** Reading the index back from a built path gives the clamped index. */
  lemma {:induction false} PathIndexRoundTrip(idx: int)
    ensures ParseProblemIndex(SgfPathForIndex(idx)) == Clamp(idx)
  {
    var safe := Clamp(idx);
    var digits := PadStart(DecimalString(safe), 3, '0');
    PaddedDigits(safe);
    var path := SgfPathForIndex(idx);
    var n := |path|;
    assert path == (SgfDir + "/") + digits + ".sgf";
    assert path[n - 8] == '/';
    assert path[n - 7] == digits[0] && path[n - 6] == digits[1] && path[n - 5] == digits[2];
    assert path[n - 4..] == ".sgf";
    assert HasProblemSuffix(path);
    assert SuffixValue(path) == safe;
  }

  /** goNextPuzzle without shuffling: the following problem, wrapping from 100 to 1. */
  function NextPuzzleIndex(current: int): int {
    if current >= PuzzleCount then 1 else current + 1
  }

  function NextPuzzlePath(currentPath: string): (next: string)
    ensures ParseProblemIndex(next) == NextPuzzleIndex(ParseProblemIndex(currentPath))
  {
    PathIndexRoundTrip(NextPuzzleIndex(ParseProblemIndex(currentPath)));
    SgfPathForIndex(NextPuzzleIndex(ParseProblemIndex(currentPath)))
  }

  /** Stepping from problem i always lands on problem i mod 100 + 1. */
  lemma {:induction false} NextPuzzleCycles(i: int)
    requires 1 <= i <= PuzzleCount
    ensures ParseProblemIndex(NextPuzzlePath(SgfPathForIndex(i))) == i % PuzzleCount + 1
  {
    var path := SgfPathForIndex(i);
    PathIndexRoundTrip(i);
    assert ParseProblemIndex(path) == i;
    var next := NextPuzzlePath(path);
    assert ParseProblemIndex(next) == NextPuzzleIndex(i);
    if i == PuzzleCount {
      assert i % PuzzleCount == 0;
    } else {
      assert i % PuzzleCount == i;
    }
  }

  /**
   * state.navigation's problem history: the visited paths and the position of
   * the current one (-1 before the first visit).
   */
  class PuzzleHistory {
    var history: seq<string>
    var index: int

    ghost predicate Valid()
      reads this
    {
      -1 <= index < |history| && (index == -1 ==> history == [])
    }

    constructor ()
      ensures Valid() && history == [] && index == -1
    {
      history := [];
      index := -1;
    }

    /**
     * recordPuzzleVisit: revisiting the current path changes nothing; otherwise
     * the forward part of the history is dropped and the path becomes the
     * newest, current entry.
     */
    method RecordVisit(path: string)
      requires Valid()
      modifies this
      ensures Valid()
      ensures if old(index) >= 0 && old(history)[old(index)] == path
              then history == old(history) && index == old(index)
              else history == old(history)[..old(index) + 1] + [path] && index == |history| - 1
      ensures history[index] == path
    {
      if index >= 0 && history[index] == path {
        return;
      }
      if index < |history| - 1 {
        history := history[..index + 1];
      }
      history := history + [path];
      index := |history| - 1;
    }

    /**
     * The history step of goPrevPuzzle: at the oldest entry (or none) nothing
     * happens; otherwise the previous entry becomes current and is returned
     * for loading.
     */
    method GoBack() returns (previous: Option<string>)
      requires Valid()
      modifies this
      ensures Valid() && history == old(history)
      ensures old(index) <= 0 ==> previous == None && index == old(index)
      ensures old(index) > 0 ==> index == old(index) - 1 && previous == Some(history[index])
    {
      if index <= 0 {
        return None;
      }
      index := index - 1;
      previous := Some(history[index]);
    }
  }
}
