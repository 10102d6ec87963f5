/**
  Models of the Go standard-library routines on strings and integers that the
  crawler's analytics rely on: `len` on a string, `strings.ToLower`,
  `strings.Contains`, `strings.Split`/`strings.Join` with a one-rune separator,
  the cutset trimmers `strings.Trim`/`TrimLeft`/`TrimRight`, `strconv.Atoi`,
  `strconv.FormatInt(_, 10)` and Go's truncating integer division.

  A Go string is modelled as the sequence of its runes (Unicode scalar values);
  its Go length, a byte count, is `Utf8Len`.
*/
module GoStrings {

  // ---------------------------------------------------------------- lengths

  /** Number of bytes the UTF-8 encoding of one rune takes. */
  function RuneLen(c: char): nat
  {
    if c as int < 0x80 then 1
    else if c as int < 0x800 then 2
    else if c as int < 0x1_0000 then 3
    else 4
  }

  /** Go's `len(s)` on a string: the length of its UTF-8 encoding. */
  function Utf8Len(s: string): (n: nat)
    ensures |s| <= n <= 4 * |s|
  {
    if s == [] then 0 else RuneLen(s[0]) + Utf8Len(s[1..])
  }

  // ------------------------------------------------------------ lower case

  /** `unicode.ToLower` restricted to ASCII: upper-case letters move down by 32. */
  function LowerRune(c: char): char
  {
    if 'A' <= c <= 'Z' then (c as int + 32) as char else c
  }

  /** No ASCII upper-case letter occurs in `s`. */
  predicate IsLower(s: string)
  {
    forall i :: 0 <= i < |s| ==> !('A' <= s[i] <= 'Z')
  }

  /** `strings.ToLower`, with ASCII case mapping. */
  function ToLower(s: string): (r: string)
    ensures |r| == |s| && IsLower(r)
    ensures forall i :: 0 <= i < |s| && !('A' <= s[i] <= 'Z') ==> r[i] == s[i]
  {
    seq(|s|, i requires 0 <= i < |s| => LowerRune(s[i]))
  }

  // -------------------------------------------------------------- searching

  /** `substr` occurs in `s` starting at offset `i`. */
  predicate OccursAt(s: string, substr: string, i: int)
  {
    0 <= i <= |s| - |substr| && s[i..i + |substr|] == substr
  }

  /** `strings.Contains(s, substr)`: `substr` occurs in `s` at some offset. */
  predicate Contains(s: string, substr: string)
  {
    exists i :: 0 <= i <= |s| - |substr| && OccursAt(s, substr, i)
  }

  /** Number of occurrences of rune `c` in `s` (`strings.Count` for one rune). */
  function CountRune(s: string, c: char): (n: nat)
    ensures n <= |s|
    ensures n == 0 <==> c !in s
  {
    if s == [] then 0 else (if s[0] == c then 1 else 0) + CountRune(s[1..], c)
  }

  // -------------------------------------------------------- split and join

  /**
    `strings.Split(s, sep)` for a one-rune separator: the pieces of `s` between
    consecutive separators, one more piece than there are separators (so the
    empty string splits into one empty piece).
  */
  function Split(s: string, sep: char): (parts: seq<string>)
    ensures |parts| == CountRune(s, sep) + 1
    ensures forall i :: 0 <= i < |parts| ==> sep !in parts[i]
  {
    if s == [] then [""]
    else
      var rest := Split(s[1..], sep);
      if s[0] == sep then [""] + rest
      else [[s[0]] + rest[0]] + rest[1..]
  }

  /** `strings.Join(elems, sep)`. */
  function Join(elems: seq<string>, sep: string): string
  {
    if elems == [] then ""
    else if |elems| == 1 then elems[0]
    else elems[0] + sep + Join(elems[1..], sep)
  }

  /** No string occurs twice in the list. */
  predicate NoDuplicates(xs: seq<string>)
  {
    forall i, j :: 0 <= i < j < |xs| ==> xs[i] != xs[j]
  }

  /** A string without the separator is a single piece. */
  lemma {:induction false} SplitWithoutSeparator(s: string, sep: char)
    requires sep !in s
    ensures Split(s, sep) == [s]
  {
    if s != [] {
      SplitWithoutSeparator(s[1..], sep);
      assert [s[0]] + s[1..] == s;
    }
  }

  /** Splitting distributes over a separator occurrence. */
  lemma {:induction false} SplitAtSeparator(a: string, sep: char, b: string)
    ensures Split(a + [sep] + b, sep) == Split(a, sep) + Split(b, sep)
  {
    var s := a + [sep] + b;
    if a == [] {
      assert s[1..] == b;
    } else {
      assert s[1..] == a[1..] + [sep] + b;
      SplitAtSeparator(a[1..], sep, b);
    }
  }

  /** The last piece of a split is everything after the last separator. */
  lemma SplitLastPiece(prefix: string, sep: char, tail: string)
    requires sep !in tail
    ensures var parts := Split(prefix + [sep] + tail, sep);
            |parts| >= 2 && parts[|parts| - 1] == tail
  {
    SplitAtSeparator(prefix, sep, tail);
    SplitWithoutSeparator(tail, sep);
  }

  // -------------------------------------------------------------- trimming

  /** `strings.TrimLeft(s, cutset)`: drop the leading runes that occur in `cutset`. */
  function TrimLeft(s: string, cutset: string): (r: string)
    ensures |r| <= |s|
    ensures r == [] || r[0] !in cutset
  {
    if s != [] && s[0] in cutset then TrimLeft(s[1..], cutset) else s
  }

  /** `TrimLeft` keeps a suffix. */
  lemma {:induction false} TrimLeftIsSuffix(s: string, cutset: string)
    ensures TrimLeft(s, cutset) == s[|s| - |TrimLeft(s, cutset)|..]
  {
    if s != [] && s[0] in cutset {
      TrimLeftIsSuffix(s[1..], cutset);
    }
  }

  /** Everything `TrimLeft` removes is in the cutset. */
  lemma {:induction false} TrimLeftRemoved(s: string, cutset: string)
    ensures forall i :: 0 <= i < |s| - |TrimLeft(s, cutset)| ==> s[i] in cutset
  {
    if s != [] && s[0] in cutset {
      TrimLeftRemoved(s[1..], cutset);
      assert forall i :: 1 <= i < |s| ==> s[i] == s[1..][i - 1];
    }
  }

  /** A prefix made of cutset runes is trimmed away entirely. */
  lemma {:induction false} TrimLeftPrefix(prefix: string, s: string, cutset: string)
    requires forall i :: 0 <= i < |prefix| ==> prefix[i] in cutset
    ensures TrimLeft(prefix + s, cutset) == TrimLeft(s, cutset)
  {
    if prefix != [] {
      TrimLeftPrefix(prefix[1..], s, cutset);
      assert (prefix + s)[1..] == prefix[1..] + s;
    } else {
      assert prefix + s == s;
    }
  }

  /** `strings.TrimRight(s, cutset)`: drop the trailing runes that occur in `cutset`. */
  function TrimRight(s: string, cutset: string): (r: string)
    ensures |r| <= |s|
    ensures r == [] || r[|r| - 1] !in cutset
  {
    if s != [] && s[|s| - 1] in cutset then TrimRight(s[..|s| - 1], cutset) else s
  }

  /** `TrimRight` keeps a prefix. */
  lemma {:induction false} TrimRightIsPrefix(s: string, cutset: string)
    ensures TrimRight(s, cutset) == s[..|TrimRight(s, cutset)|]
  {
    if s != [] && s[|s| - 1] in cutset {
      TrimRightIsPrefix(s[..|s| - 1], cutset);
    }
  }

  /**
    `strings.Trim(s, cutset)`: drop leading and trailing runes that occur in
    `cutset` (a set of runes, not a prefix or suffix string).
  */
  function Trim(s: string, cutset: string): (r: string)
    ensures r == [] || (r[0] !in cutset && r[|r| - 1] !in cutset)
  {
    var l := TrimLeft(s, cutset);
    TrimRightIsPrefix(l, cutset);
    TrimRight(l, cutset)
  }

  /** What `Trim` returns is the piece of its input after the runes `TrimLeft` removes. */
  lemma TrimIsSlice(s: string, cutset: string)
    ensures var start := |s| - |TrimLeft(s, cutset)|;
            start + |Trim(s, cutset)| <= |s| && Trim(s, cutset) == s[start..start + |Trim(s, cutset)|]
  {
    TrimLeftIsSuffix(s, cutset);
    TrimRightIsPrefix(TrimLeft(s, cutset), cutset);
  }

  /** A piece of a piece of `s` occurs in `s`. */
  lemma OccursInSlice(s: string, t: string, r: string, a: nat, b: nat)
    requires a + |t| <= |s| && t == s[a..a + |t|]
    requires b + |r| <= |t| && r == t[b..b + |r|]
    ensures OccursAt(s, r, a + b)
  {
    assert forall k :: 0 <= k < |r| ==> r[k] == s[a + b + k];
  }

  /** `Trim` leaves a string alone when neither end is in the cutset. */
  lemma TrimUnchanged(s: string, cutset: string)
    requires s == [] || (s[0] !in cutset && s[|s| - 1] !in cutset)
    ensures Trim(s, cutset) == s
  {
  }

  // ------------------------------------------------------- decimal numbers

  predicate IsDigit(c: char)
  {
    '0' <= c <= '9'
  }

  predicate AllDigits(s: string)
  {
    forall i :: 0 <= i < |s| ==> IsDigit(s[i])
  }

  /** The value of a string of decimal digits (most significant first). */
  function DigitsValue(s: string): nat
    requires AllDigits(s)
  {
    if s == [] then 0 else DigitsValue(s[..|s| - 1]) * 10 + (s[|s| - 1] as int - '0' as int)
  }

  /** Length of an optional leading `+` or `-`. */
  function SignLength(s: string): nat
  {
    if |s| > 0 && (s[0] == '+' || s[0] == '-') then 1 else 0
  }

  /** An optional sign followed by at least one decimal digit, and nothing else. */
  predicate IsDecimal(s: string)
  {
    var k := SignLength(s);
    |s| > k && AllDigits(s[k..])
  }

  /** The signed value of a decimal string. */
  function DecimalValue(s: string): int
    requires IsDecimal(s)
  {
    var magnitude: int := DigitsValue(s[SignLength(s)..]);
    if s[0] == '-' then -magnitude else magnitude
  }

  /** Range of Go's `int` on the 64-bit platforms the crawler is built for. */
  const MinInt: int := -0x8000_0000_0000_0000
  const MaxInt: int := 0x7fff_ffff_ffff_ffff

  /**
    `strconv.Atoi(s)` returns no error: `s` is an optionally signed decimal
    numeral whose value fits in a 64-bit `int` (base 10, so no `_` separators).
  */
  predicate AtoiAccepts(s: string)
  {
    IsDecimal(s) && MinInt <= DecimalValue(s) <= MaxInt
  }

  /** The digit rune for `d`. */
  function DigitChar(d: nat): char
    requires d < 10
  {
    ('0' as int + d) as char
  }

  /** Base-10 rendering of a natural number, without leading zeros. */
  function FormatNat(n: nat): (s: string)
    ensures |s| > 0 && AllDigits(s)
    ensures DigitsValue(s) == n
    ensures s[0] == '0' ==> s == "0"
  {
    if n < 10 then [DigitChar(n)]
    else
      var s := FormatNat(n / 10) + [DigitChar(n % 10)];
      assert s[..|s| - 1] == FormatNat(n / 10);
      s
  }

  /** `strconv.FormatInt(n, 10)`: a `-` for negative numbers, then the digits. */
  function FormatInt(n: int): string
  {
    if n < 0 then "-" + FormatNat(-n) else FormatNat(n)
  }

  /** `FormatInt` is read back by `Atoi`: the rendering is plain base 10, in its canonical form. */
  lemma FormatIntRoundTrip(n: int)
    ensures IsDecimal(FormatInt(n)) && DecimalValue(FormatInt(n)) == n
    ensures MinInt <= n <= MaxInt ==> AtoiAccepts(FormatInt(n))
    ensures CanonicalDecimal(FormatInt(n))
  {
    var s := FormatInt(n);
    if n < 0 {
      assert s[1..] == FormatNat(-n);
    } else {
      assert s[0..] == FormatNat(n);
    }
  }

  /** Decimal digits with no leading zero, except for "0" itself. */
  predicate NoLeadingZero(s: string)
  {
    |s| > 0 && AllDigits(s) && (s[0] == '0' ==> |s| == 1)
  }

  /** The numeral `FormatInt` writes: no `+`, a `-` only before a non-zero magnitude, no leading zero. */
  predicate CanonicalDecimal(s: string)
  {
    |s| > 0 && if s[0] == '-' then NoLeadingZero(s[1..]) && s[1..] != "0" else NoLeadingZero(s)
  }

  /** Digits that do not start with '0' are worth at least 1, and at least 10 when there are two or more. */
  lemma {:induction false} LeadingDigitBound(s: string)
    requires |s| > 0 && AllDigits(s) && s[0] != '0'
    ensures DigitsValue(s) >= 1
    ensures |s| >= 2 ==> DigitsValue(s) >= 10
  {
    if |s| >= 2 {
      LeadingDigitBound(s[..|s| - 1]);
    }
  }

  /** Two digit strings without leading zeros and of equal value are the same string. */
  lemma {:induction false} NoLeadingZeroUnique(s: string, t: string)
    requires NoLeadingZero(s) && NoLeadingZero(t)
    requires DigitsValue(s) == DigitsValue(t)
    ensures s == t
    decreases |s|
  {
    if |s| >= 2 {
      LeadingDigitBound(s);
    }
    if |t| >= 2 {
      LeadingDigitBound(t);
    }
    if |s| >= 2 && |t| >= 2 {
      var s', t' := s[..|s| - 1], t[..|t| - 1];
      assert DigitsValue(s') == DigitsValue(t') && s[|s| - 1] == t[|t| - 1];
      NoLeadingZeroUnique(s', t');
      assert s == s' + [s[|s| - 1]] && t == t' + [t[|t| - 1]];
    } else {
      assert |s| == 1 && |t| == 1;
      assert DigitsValue(s) == s[0] as int - '0' as int;
      assert DigitsValue(t) == t[0] as int - '0' as int;
    }
  }

  /** A value has exactly one canonical numeral: the text of an integer cell is determined by the integer. */
  lemma CanonicalUnique(s: string, t: string)
    requires CanonicalDecimal(s) && CanonicalDecimal(t)
    ensures IsDecimal(s) && IsDecimal(t)
    ensures DecimalValue(s) == DecimalValue(t) ==> s == t
  {
    var ks, kt := SignLength(s), SignLength(t);
    assert s[ks..] == (if s[0] == '-' then s[1..] else s);
    assert t[kt..] == (if t[0] == '-' then t[1..] else t);
    if DecimalValue(s) == DecimalValue(t) {
      if s[0] == '-' {
        LeadingDigitBound(s[1..]);
      }
      if t[0] == '-' {
        LeadingDigitBound(t[1..]);
      }
      NoLeadingZeroUnique(s[ks..], t[kt..]);
      if s[0] == '-' {
        assert s == [s[0]] + s[1..] && t == [t[0]] + t[1..];
      }
    }
  }

  // ----------------------------------------------------------- arithmetic

  function Abs(x: int): nat
  {
    if x < 0 then -x else x
  }

  /** The magnitude `|a| / |b|`, given the sign of the operands, brackets `a`. */
  lemma TruncatedQuotient(a: int, b: int, d: int)
    requires b != 0 && d == Abs(a) / Abs(b)
    ensures var q := if (a < 0) == (b < 0) then d else -d;
            (0 <= a ==> 0 <= q * b <= a < q * b + Abs(b)) &&
            (a < 0 ==> q * b - Abs(b) < a <= q * b <= 0)
  {
    var x, y := Abs(a), Abs(b);
    var m := d * y;
    assert 0 <= m <= x < m + y;
    if b < 0 {
      assert d * b == -m && -d * b == m;
    } else {
      assert d * b == m && -d * b == -m;
    }
  }

  /**
    Go's `a / b` on integers: the quotient truncated toward zero, so that
    `q * b` lies between 0 and `a` and within `|b|` of `a`. (Dafny's own `/`
    is Euclidean: the remainder is never negative.)
  */
  function Quo(a: int, b: int): (q: int)
    requires b != 0
    ensures 0 <= a ==> 0 <= q * b <= a < q * b + Abs(b)
    ensures a < 0 ==> q * b - Abs(b) < a <= q * b <= 0
  {
    var d := Abs(a) / Abs(b);
    TruncatedQuotient(a, b, d);
    if (a < 0) == (b < 0) then d else -d
  }
}
