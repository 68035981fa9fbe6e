/** The handful of Python string operations the modelled code relies on. */
module Text {

  /** `s.split(sep)` for a one-character separator. */
  function Split(s: string, sep: char): (parts: seq<string>)
    ensures |parts| >= 1
  {
    if s == [] then [""]
    else
      var rest := Split(s[1..], sep);
      if s[0] == sep then [""] + rest else [[s[0]] + rest[0]] + rest[1..]
  }

  lemma {:induction false} SplitConcat(a: string, sep: char, b: string)
    ensures Split(a + [sep] + b, sep) == Split(a, sep) + Split(b, sep)
  {
    if a == [] {
      assert (a + [sep] + b)[1..] == b;
    } else {
      assert (a + [sep] + b)[1..] == a[1..] + [sep] + b;
      SplitConcat(a[1..], sep, b);
    }
  }

  lemma {:induction false} SplitWhole(s: string, sep: char)
    requires sep !in s
    ensures Split(s, sep) == [s]
  {
    if s != [] {
      SplitWhole(s[1..], sep);
      assert [s[0]] + s[1..] == s;
    }
  }

  function Join(parts: seq<string>, sep: char): string
    requires parts != []
    decreases |parts|
  {
    if |parts| == 1 then parts[0] else parts[0] + [sep] + Join(parts[1..], sep)
  }

  /** Splitting undoes joining parts that do not hold the separator, */
  lemma {:induction false} SplitJoin(parts: seq<string>, sep: char)
    requires parts != [] && forall i :: 0 <= i < |parts| ==> sep !in parts[i]
    ensures Split(Join(parts, sep), sep) == parts
    decreases |parts|
  {
    SplitWhole(parts[0], sep);
    assert parts == [parts[0]] + parts[1..];
    if |parts| > 1 {
      SplitConcat(parts[0], sep, Join(parts[1..], sep));
      SplitJoin(parts[1..], sep);
    }
  }

  /** and every text is the join of its parts, none of which holds the separator. */
  lemma {:induction false} JoinSplit(s: string, sep: char)
    ensures forall i :: 0 <= i < |Split(s, sep)| ==> sep !in Split(s, sep)[i]
    ensures Join(Split(s, sep), sep) == s
  {
    if s != [] {
      var rest := Split(s[1..], sep);
      JoinSplit(s[1..], sep);
      if s[0] == sep {
        assert ([""] + rest)[1..] == rest;
        assert "" + [sep] + s[1..] == s;
      } else {
        var parts := [[s[0]] + rest[0]] + rest[1..];
        assert parts[1..] == rest[1..];
        JoinCons(s[0], rest, sep);
        assert [s[0]] + s[1..] == s;
      }
    }
  }

  lemma JoinCons(c: char, parts: seq<string>, sep: char)
    requires parts != []
    ensures Join([[c] + parts[0]] + parts[1..], sep) == [c] + Join(parts, sep)
  {
    var longer := [[c] + parts[0]] + parts[1..];
    assert longer[1..] == parts[1..];
    if |parts| > 1 {
      assert [c] + parts[0] + [sep] + Join(parts[1..], sep) == [c] + (parts[0] + [sep] + Join(parts[1..], sep));
    }
  }

  /** ASCII whitespace, as `bytes.strip()` sees it; `wide` adds what `str.strip()` drops from latin-1 text. */
  predicate IsSpace(c: char, wide: bool) {
    var n := c as int;
    9 <= n <= 13 || n == 32 || (wide && (28 <= n <= 31 || n == 0x85 || n == 0xA0))
  }

  function StripLeft(s: string, wide: bool): string {
    if s != [] && IsSpace(s[0], wide) then StripLeft(s[1..], wide) else s
  }

  function StripRight(s: string, wide: bool): string {
    if s != [] && IsSpace(s[|s| - 1], wide) then StripRight(s[..|s| - 1], wide) else s
  }

  function Strip(s: string, wide: bool): string {
    StripRight(StripLeft(s, wide), wide)
  }

  predicate Blank(s: string, wide: bool) {
    forall i :: 0 <= i < |s| ==> IsSpace(s[i], wide)
  }

  predicate Tight(s: string, wide: bool) {
    s == "" || (!IsSpace(s[0], wide) && !IsSpace(s[|s| - 1], wide))
  }

  /** The blanks of `bytes`: space, tab, line feed, carriage return, vertical tab and form feed. */
  lemma BytesBlanks(c: char)
    ensures IsSpace(c, false) <==> c in {' ', '\t', '\n', '\r', '\U{0B}', '\U{0C}'}
  {}

  lemma {:induction false} StripLeftDrops(blanks: string, s: string, wide: bool)
    requires Blank(blanks, wide) && (s == "" || !IsSpace(s[0], wide))
    ensures StripLeft(blanks + s, wide) == s
    decreases |blanks|
  {
    if blanks == "" {
      assert blanks + s == s;
    } else {
      assert (blanks + s)[1..] == blanks[1..] + s;
      StripLeftDrops(blanks[1..], s, wide);
    }
  }

  lemma {:induction false} StripRightDrops(s: string, blanks: string, wide: bool)
    requires Blank(blanks, wide) && (s == "" || !IsSpace(s[|s| - 1], wide))
    ensures StripRight(s + blanks, wide) == s
    decreases |blanks|
  {
    if blanks == "" {
      assert s + blanks == s;
    } else {
      var n := |blanks| - 1;
      assert (s + blanks)[..|s| + n] == s + blanks[..n];
      StripRightDrops(s, blanks[..n], wide);
    }
  }

  /** Blanks around a text without outer blanks are dropped, and nothing else. */
  lemma StripDrops(left: string, s: string, right: string, wide: bool)
    requires Blank(left, wide) && Blank(right, wide) && Tight(s, wide)
    ensures Strip(left + s + right, wide) == s
  {
    if s == "" {
      StripLeftDrops(left + right, "", wide);
      assert left + s + right == left + right + "";
    } else {
      StripLeftDrops(left, s + right, wide);
      assert left + s + right == left + (s + right);
      StripRightDrops(s, right, wide);
    }
  }

  predicate StartsWith(s: string, prefix: string) {
    |prefix| <= |s| && s[..|prefix|] == prefix
  }

  lemma StartsWithExactly(s: string, prefix: string)
    ensures StartsWith(s, prefix) <==> exists rest :: s == prefix + rest
  {
    if StartsWith(s, prefix) {
      assert s == prefix + s[|prefix|..];
    }
  }

  /** `str(n)` for a non-negative number. */
  function Decimal(n: nat): (r: string)
    ensures |r| >= 1
    ensures forall i :: 0 <= i < |r| ==> '0' <= r[i] <= '9'
  {
    var d := [('0' as int + n % 10) as char];
    if n < 10 then d else Decimal(n / 10) + d
  }

  /** The number that a text of digits denotes. */
  function DigitsValue(s: string): int {
    if s == "" then 0 else 10 * DigitsValue(s[..|s| - 1]) + (s[|s| - 1] as int - '0' as int)
  }

  /** Printing a number loses nothing and adds no leading zero. */
  lemma {:induction false} DecimalReadsBack(n: nat)
    ensures DigitsValue(Decimal(n)) == n
    ensures n > 0 ==> Decimal(n)[0] != '0'
  {
    var d := [('0' as int + n % 10) as char];
    if n < 10 {
      assert d[..0] == "";
    } else {
      DecimalReadsBack(n / 10);
      var r := Decimal(n / 10) + d;
      assert r[..|r| - 1] == Decimal(n / 10);
    }
  }
}
