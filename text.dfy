/** Python string and list operations used by the routing tool, on `seq<char>`. */
module Text {

  /** Python `str(n)` for a non-negative integer. */
  function NatToString(n: nat): (s: string)
    ensures |s| >= 1
    ensures forall i :: 0 <= i < |s| ==> '0' <= s[i] <= '9'
    decreases n
  {
    if n < 10 then [DigitChar(n)] else NatToString(n / 10) + [DigitChar(n % 10)]
  }

  function DigitChar(d: nat): (c: char)
    requires d < 10
    ensures '0' <= c <= '9'
  {
    ('0' as int + d) as char
  }

  /** Python `str(n)` for any integer: a leading `-` for negatives. */
  function IntToString(n: int): string
  {
    if n < 0 then "-" + NatToString(-n) else NatToString(n)
  }

  predicate IsDigits(s: string)
  {
    forall i :: 0 <= i < |s| ==> '0' <= s[i] <= '9'
  }

  /** The value of a string of decimal digits (leading zeros allowed). */
  function DigitsValue(s: string): nat
    requires IsDigits(s)
  {
    if s == [] then 0 else DigitsValue(s[..|s| - 1]) * 10 + (s[|s| - 1] as int - '0' as int)
  }

  lemma {:induction false} DigitsValueOfNatToString(n: nat)
    ensures DigitsValue(NatToString(n)) == n
    decreases n
  {
    var s := NatToString(n);
    if n >= 10 {
      DigitsValueOfNatToString(n / 10);
      assert s[..|s| - 1] == NatToString(n / 10);
    }
  }

  /** `n` zero characters. */
  function Zeros(n: nat): (z: string)
    ensures |z| == n && forall i :: 0 <= i < n ==> z[i] == '0'
  {
    seq(n, _ => '0')
  }

  lemma {:induction false} DigitsValueLeadingZeros(n: nat, s: string)
    requires IsDigits(s)
    ensures IsDigits(Zeros(n) + s) && DigitsValue(Zeros(n) + s) == DigitsValue(s)
    decreases |s|
  {
    var t := Zeros(n) + s;
    if s == [] {
      assert t == Zeros(n);
      ZerosValue(n);
    } else {
      assert t[..|t| - 1] == Zeros(n) + s[..|s| - 1];
      DigitsValueLeadingZeros(n, s[..|s| - 1]);
    }
  }

  lemma {:induction false} ZerosValue(n: nat)
    ensures IsDigits(Zeros(n)) && DigitsValue(Zeros(n)) == 0
  {
    if n > 0 {
      assert Zeros(n)[..n - 1] == Zeros(n - 1);
      ZerosValue(n - 1);
    }
  }

  /** Python `str.split(sep)` for a one-character separator. */
  function Split(s: string, sep: char): (r: seq<string>)
    ensures |r| >= 1
    decreases |s|
  {
    if s == [] then [""]
    else
      var rest := Split(s[1..], sep);
      if s[0] == sep then [""] + rest else [[s[0]] + rest[0]] + rest[1..]
  }

  lemma {:induction false} SplitWithoutSeparator(s: string, sep: char)
    requires sep !in s
    ensures Split(s, sep) == [s]
    decreases |s|
  {
    if s != [] {
      SplitWithoutSeparator(s[1..], sep);
      assert [s[0]] + s[1..] == s;
    }
  }

  lemma {:induction false} SplitAtFirstSeparator(a: string, sep: char, b: string)
    requires sep !in a
    ensures Split(a + [sep] + b, sep) == [a] + Split(b, sep)
    decreases |a|
  {
    var s := a + [sep] + b;
    if a == [] {
      assert s[1..] == b;
    } else {
      assert s[1..] == a[1..] + [sep] + b;
      SplitAtFirstSeparator(a[1..], sep, b);
      assert [a[0]] + a[1..] == a;
    }
  }

  /** The index of the first `c` in `s`, or `|s|` when there is none. */
  function FirstIndex(s: string, c: char): (k: nat)
    ensures k <= |s| && c !in s[..k] && (k < |s| ==> s[k] == c)
    decreases |s|
  {
    if s == [] then 0
    else if s[0] == c then 0
    else
      var k := FirstIndex(s[1..], c);
      assert s[1..][..k] == s[1..k + 1];
      1 + k
  }

  /** The first piece of `s.split(sep)` is `s` up to its first `sep`. */
  lemma {:induction false} SplitFirst(s: string, sep: char)
    ensures Split(s, sep)[0] == s[..FirstIndex(s, sep)]
    decreases |s|
  {
    if s != [] && s[0] != sep {
      SplitFirst(s[1..], sep);
      assert s[..FirstIndex(s, sep)] == [s[0]] + s[1..][..FirstIndex(s[1..], sep)];
    }
  }

  /**
   * The last piece of `s.split(sep)` is the part of `s` after its last
   * `sep` (all of `s` when there is none).
   */
  lemma {:induction false} SplitLast(s: string, sep: char)
    ensures var parts := Split(s, sep); var l := parts[|parts| - 1];
      && sep !in l && |l| <= |s| && s[|s| - |l|..] == l
      && (|l| < |s| ==> s[|s| - |l| - 1] == sep)
      && (|parts| == 1 <==> sep !in s)
    decreases |s|
  {
    if s != [] {
      var rest := Split(s[1..], sep);
      SplitLast(s[1..], sep);
      var l' := rest[|rest| - 1];
      assert s[1..][|s| - 1 - |l'|..] == s[|s| - |l'|..];
      if |l'| < |s| - 1 {
        assert s[1..][|s| - 1 - |l'| - 1] == s[|s| - |l'| - 1];
      }
      assert s == [s[0]] + s[1..];
      if s[0] != sep && |rest| == 1 {
        assert sep !in s[1..];
        assert l' == s[1..];
        assert Split(s, sep) == [[s[0]] + rest[0]];
      }
    }
  }

  /** Splitting at a last separator adds the tail as the last piece. */
  lemma {:induction false} SplitAtLastSeparator(a: string, sep: char, b: string)
    requires sep !in b
    ensures Split(a + [sep] + b, sep) == Split(a, sep) + [b]
    decreases |a|
  {
    var s := a + [sep] + b;
    if a == [] {
      assert s[1..] == b;
      SplitWithoutSeparator(b, sep);
    } else {
      assert s[1..] == a[1..] + [sep] + b;
      SplitAtLastSeparator(a[1..], sep, b);
      assert [a[0]] + a[1..] == a;
    }
  }

  /** Python `s.replace(c, d)` for single characters. */
  function ReplaceChar(s: string, c: char, d: char): (r: string)
  {
    seq(|s|, i requires 0 <= i < |s| => if s[i] == c then d else s[i])
  }

  /** The replacements of `reps`, one after another, each by `'_'`. */
  function ReplaceEach(s: string, reps: seq<char>): string
  {
    if reps == [] then s else ReplaceChar(ReplaceEach(s, reps[..|reps| - 1]), reps[|reps| - 1], '_')
  }

  lemma {:induction false} ReplaceEachChars(s: string, reps: seq<char>)
    requires '_' !in reps
    ensures |ReplaceEach(s, reps)| == |s|
    ensures forall i :: 0 <= i < |s| ==> ReplaceEach(s, reps)[i] == if s[i] in reps then '_' else s[i]
  {
    if reps != [] {
      ReplaceEachChars(s, reps[..|reps| - 1]);
      assert forall c :: c in reps <==> c in reps[..|reps| - 1] || c == reps[|reps| - 1] by {
        assert reps == reps[..|reps| - 1] + [reps[|reps| - 1]];
      }
    }
  }

  /** Python `sep.join(parts)`. */
  function Join(parts: seq<string>, sep: string): string
  {
    if parts == [] then ""
    else if |parts| == 1 then parts[0]
    else Join(parts[..|parts| - 1], sep) + sep + parts[|parts| - 1]
  }

  predicate Distinct<T(==)>(xs: seq<T>)
  {
    forall i, j :: 0 <= i < j < |xs| ==> xs[i] != xs[j]
  }

  /**
   * The elements of `xs` without repeats, each at the place where it is
   * first seen: what a loop of `if x not in out: out.append(x)` builds.
   */
  function Dedup<T(==)>(xs: seq<T>): seq<T>
  {
    if xs == [] then []
    else
      var d := Dedup(xs[..|xs| - 1]);
      if xs[|xs| - 1] in d then d else d + [xs[|xs| - 1]]
  }

  /** The index of the first occurrence of `x` in `xs` (Python `list.index`). */
  function IndexOf<T(==)>(xs: seq<T>, x: T): (k: nat)
    requires x in xs
    ensures k < |xs| && xs[k] == x && x !in xs[..k]
  {
    if xs[0] == x then 0 else assert xs[1..][IndexOf(xs[1..], x)] == x; 1 + IndexOf(xs[1..], x)
  }

  lemma {:induction false} DedupProperties<T>(xs: seq<T>)
    ensures Distinct(Dedup(xs))
    ensures forall x :: x in Dedup(xs) <==> x in xs
    ensures |Dedup(xs)| <= |xs|
  {
    if xs != [] {
      DedupProperties(xs[..|xs| - 1]);
      var init := xs[..|xs| - 1];
      assert forall x :: x in xs <==> x in init || x == xs[|xs| - 1] by {
        assert xs == init + [xs[|xs| - 1]];
      }
    }
  }

  /**
   * First-seen order: an element that appears before another in `Dedup(xs)`
   * was first seen earlier in `xs`.
   */
  lemma {:induction false} DedupFirstSeenOrder<T>(xs: seq<T>, i: nat, j: nat)
    requires i < j < |Dedup(xs)|
    ensures Dedup(xs)[i] in xs && Dedup(xs)[j] in xs
    ensures IndexOf(xs, Dedup(xs)[i]) < IndexOf(xs, Dedup(xs)[j])
  {
    DedupProperties(xs);
    var d := Dedup(xs);
    var init := xs[..|xs| - 1];
    var last := xs[|xs| - 1];
    assert xs == init + [last];
    DedupProperties(init);
    if last in Dedup(init) {
      DedupFirstSeenOrder(init, i, j);
      IndexOfPrefix(init, last, d[i]);
      IndexOfPrefix(init, last, d[j]);
    } else {
      assert d == Dedup(init) + [last];
      if j < |Dedup(init)| {
        DedupFirstSeenOrder(init, i, j);
        IndexOfPrefix(init, last, d[i]);
        IndexOfPrefix(init, last, d[j]);
      } else {
        assert d[j] == last && last !in init;
        assert d[i] == Dedup(init)[i];
        DedupMember(init, i);
        IndexOfPrefix(init, last, d[i]);
        assert IndexOf(xs, d[i]) < |init|;
        assert IndexOf(xs, last) == |init| by {
          assert xs[..|init|] == init;
        }
      }
    }
  }

  lemma DedupMember<T>(xs: seq<T>, i: nat)
    requires i < |Dedup(xs)|
    ensures Dedup(xs)[i] in xs
  {
    DedupProperties(xs);
  }

  lemma IndexOfPrefix<T>(init: seq<T>, last: T, x: T)
    requires x in init
    ensures IndexOf(init + [last], x) == IndexOf(init, x)
  {
    var s := init + [last];
    var k := IndexOf(init, x);
    var m := IndexOf(s, x);
    assert s[k] == x;
    assert s[..|init|] == init;
  }
}
