/** The file-name and timestamp helpers of Flask/line_builder.py. */
module LineBuilder {
  import opened Text

  /** The index of the last `c` in `s`, or -1 when there is none. */
  function LastIndex(s: string, c: char): (k: int)
    ensures -1 <= k < |s| && (k >= 0 ==> s[k] == c)
    ensures forall i :: k < i < |s| ==> s[i] != c
    decreases |s|
  {
    if s == [] then -1
    else if s[|s| - 1] == c then |s| - 1
    else LastIndex(s[..|s| - 1], c)
  }

  /** `s.rsplit(c, 1)[0]`: `s` up to its last `c`, or all of `s`. */
  function BeforeLast(s: string, c: char): string
  {
    var k := LastIndex(s, c);
    if k < 0 then s else s[..k]
  }

  /** A suffix without `c` that follows a `c` (or is everything) starts just after the last `c`. */
  lemma LastIndexOfSuffix(s: string, c: char, l: string)
    requires |l| <= |s| && s[|s| - |l|..] == l && c !in l
    requires |l| < |s| ==> s[|s| - |l| - 1] == c
    ensures LastIndex(s, c) == |s| - |l| - 1
  {
  }

  /**
   * `get_file_name`: the last `'\\'`-separated segment of the path, with
   * the text from its last `'.'` on removed; a segment without `'.'` is
   * returned whole.
   */
  function GetFileName(path: string): (r: string)
    ensures '\\' !in r
    ensures var segment := path[LastIndex(path, '\\') + 1..];
      && ('.' !in segment ==> r == segment)
      && ('.' in segment ==> |r| < |segment| && segment[..|r|] == r && segment[|r|] == '.' && '.' !in segment[|r| + 1..])
  {
    var parts := Split(path, '\\');
    SplitLast(path, '\\');
    LastIndexOfSuffix(path, '\\', parts[|parts| - 1]);
    assert parts[|parts| - 1] == path[LastIndex(path, '\\') + 1..];
    BeforeLast(parts[|parts| - 1], '.')
  }

  /** The characters `CleanDatetime` turns into `'_'`, in the order it replaces them. */
  const REPLACEMENTS: seq<char> := [' ', '-', ':']

  /** What `CleanDatetime` returns: the replaced string, cut at its first `'.'`. */
  function Cleaned(s: string): string
  {
    var t := ReplaceEach(s, REPLACEMENTS);
    if '.' in t then Split(t, '.')[0] else t
  }

  /** `CleanDatetime`: the loop over the replacements, then the cut. */
  method CleanDatetime(datestring: string) returns (r: string)
    ensures r == Cleaned(datestring)
  {
    r := datestring;
    for i := 0 to |REPLACEMENTS|
      invariant r == ReplaceEach(datestring, REPLACEMENTS[..i])
    {
      assert REPLACEMENTS[..i + 1][..i] == REPLACEMENTS[..i];
      r := ReplaceChar(r, REPLACEMENTS[i], '_');
    }
    assert REPLACEMENTS[..|REPLACEMENTS|] == REPLACEMENTS;
    if '.' in r {
      r := Split(r, '.')[0];
    }
  }

  lemma {:induction false} FirstIndexAgrees(s: string, t: string, c: char)
    requires |s| == |t| && forall i :: 0 <= i < |s| ==> (s[i] == c <==> t[i] == c)
    ensures FirstIndex(s, c) == FirstIndex(t, c)
    decreases |s|
  {
    if s != [] && s[0] != c {
      FirstIndexAgrees(s[1..], t[1..], c);
    }
  }

  lemma FirstIndexAt(s: string, c: char, k: nat)
    requires k < |s| && s[k] == c && c !in s[..k]
    ensures FirstIndex(s, c) == k
  {
  }

  /**
   * The result keeps the characters before the first `'.'`, one for one,
   * with each of `' '`, `'-'` and `':'` turned into `'_'`.
   */
  lemma CleanedChars(s: string)
    ensures |Cleaned(s)| == FirstIndex(s, '.')
    ensures forall i :: 0 <= i < |Cleaned(s)| ==> Cleaned(s)[i] == if s[i] in REPLACEMENTS then '_' else s[i]
  {
    var t := ReplaceEach(s, REPLACEMENTS);
    ReplaceEachChars(s, REPLACEMENTS);
    FirstIndexAgrees(s, t, '.');
    SplitFirst(t, '.');
    if '.' !in t {
      assert FirstIndex(t, '.') == |t|;
    }
  }

  /** None of `' '`, `'-'`, `':'`, `'.'` is left. */
  lemma CleanedHasNoSeparators(s: string)
    ensures '.' !in Cleaned(s)
    ensures forall i :: 0 <= i < |Cleaned(s)| ==> Cleaned(s)[i] !in REPLACEMENTS
  {
    CleanedChars(s);
    var r := Cleaned(s);
    var k := FirstIndex(s, '.');
    forall i | 0 <= i < |r|
      ensures r[i] != '.'
    {
      assert s[i] == s[..k][i];
    }
  }

  /** Cleaning a cleaned string changes nothing. */
  lemma CleanedIdempotent(s: string)
    ensures Cleaned(Cleaned(s)) == Cleaned(s)
  {
    var r := Cleaned(s);
    CleanedHasNoSeparators(s);
    CleanedChars(r);
  }

  lemma InReplacements(c: char)
    ensures c in REPLACEMENTS <==> c == ' ' || c == '-' || c == ':'
  {
  }

  /** The replacements on a `str(datetime.now())`, before the cut. */
  lemma ReplacedTimestamp(s: string, u: string)
    requires s == "2024-01-02 03:04:05.123456" && u == ReplaceEach(s, REPLACEMENTS)
    ensures u == "2024_01_02_03_04_05.123456"
  {
    var t := "2024_01_02_03_04_05.123456";
    ReplaceEachChars(s, REPLACEMENTS);
    forall i | 0 <= i < |s|
      ensures u[i] == t[i]
    {
      InReplacements(s[i]);
      if i < 4 || i in {5, 6, 8, 9, 11, 12, 14, 15} || i >= 17 {
      } else {
        assert i in {4, 7, 10, 13, 16};
      }
    }
  }

  /** Everything before the first `'.'` is the first piece of the split. */
  lemma CutAtDot(head: string, tail: string)
    requires '.' !in head
    ensures '.' in head + "." + tail && Split(head + "." + tail, '.')[0] == head
  {
    assert head + "." + tail == head + ['.'] + tail;
    assert (head + "." + tail)[|head|] == '.';
    SplitAtFirstSeparator(head, '.', tail);
  }

  /** A `str(datetime.now())` becomes the stamp in a route's file name. */
  lemma CleanedTimestamp(s: string)
    requires s == "2024-01-02 03:04:05.123456"
    ensures Cleaned(s) == "2024_01_02_03_04_05"
  {
    var t := ReplaceEach(s, REPLACEMENTS);
    ReplacedTimestamp(s, t);
    var head, tail := "2024_01_02_03_04_05", "123456";
    assert '.' !in head;
    CutAtDot(head, tail);
    assert t == head + "." + tail;
  }
}
