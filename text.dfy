/** The Python string operations the submission scripts are built from:
    `str.split(c)` and `c.join(parts)` on a one-character separator,
    `str.strip(c)`, and `'%d' % n`. */
module Text {

  /** The position of the first c in s. */
  function IndexOf(s: string, c: char): (i: nat)
    requires c in s
    ensures i < |s| && s[i] == c && c !in s[..i]
  {
    if s[0] == c then 0 else assert s == [s[0]] + s[1..]; 1 + IndexOf(s[1..], c)
  }

  /** `s.split(c)`: the maximal pieces between the occurrences of c; there
      is always at least one piece, and "" splits to [""]. */
  function Split(s: string, c: char): (parts: seq<string>)
    ensures |parts| >= 1
    ensures forall k :: 0 <= k < |parts| ==> c !in parts[k]
    decreases |s|
  {
    if c !in s then [s]
    else
      var i := IndexOf(s, c);
      [s[..i]] + Split(s[i + 1..], c)
  }

  /** `c.join(parts)` */
  function Join(parts: seq<string>, c: char): string
  {
    if |parts| == 0 then ""
    else if |parts| == 1 then parts[0]
    else parts[0] + [c] + Join(parts[1..], c)
  }

  /** Joining the pieces of a split gives back the string. */
  lemma {:induction false} JoinSplit(s: string, c: char)
    ensures Join(Split(s, c), c) == s
    decreases |s|
  {
    if c in s {
      var i := IndexOf(s, c);
      var rest := Split(s[i + 1..], c);
      JoinSplit(s[i + 1..], c);
      assert Split(s, c) == [s[..i]] + rest;
      assert Join(Split(s, c), c) == s[..i] + [c] + Join(rest, c);
      assert s == s[..i] + [c] + s[i + 1..];
    }
  }

  /** Splitting a string whose first piece is x. */
  lemma SplitCons(x: string, c: char, y: string)
    requires c !in x
    ensures Split(x + [c] + y, c) == [x] + Split(y, c)
  {
    var s := x + [c] + y;
    assert s[|x|] == c;
    var i := IndexOf(s, c);
    assert s[..i] == x && s[i + 1..] == y;
  }

  /** Splitting a joined list of pieces free of c gives back the pieces. */
  lemma {:induction false} SplitJoin(parts: seq<string>, c: char)
    requires |parts| >= 1 && forall k :: 0 <= k < |parts| ==> c !in parts[k]
    ensures Split(Join(parts, c), c) == parts
  {
    if |parts| > 1 {
      var rest := parts[1..];
      forall k | 0 <= k < |rest|
        ensures c !in rest[k]
      {
        assert rest[k] == parts[k + 1];
      }
      SplitJoin(rest, c);
      assert Join(parts, c) == parts[0] + [c] + Join(rest, c);
      SplitCons(parts[0], c, Join(rest, c));
      assert parts == [parts[0]] + rest;
    } else {
      assert Join(parts, c) == parts[0];
    }
  }

  /** The first piece of a split is the run of s before its first c: a
      prefix of s that is all of s or is followed by c. */
  lemma FirstPiece(s: string, c: char)
    ensures var piece := Split(s, c)[0];
      |piece| <= |s| && piece == s[..|piece|] && (|piece| == |s| || s[|piece|] == c)
  {
    if c in s {
      var i := IndexOf(s, c);
      assert Split(s, c)[0] == s[..i];
    }
  }

  /** A string has more than one piece exactly when it contains c. */
  lemma SplitCount(s: string, c: char)
    ensures |Split(s, c)| >= 2 <==> c in s
  {
    if c in s {
      var i := IndexOf(s, c);
      assert |Split(s, c)| == 1 + |Split(s[i + 1..], c)|;
    }
  }

  /** Joining with one more piece at the end. */
  lemma {:induction false} JoinSnoc(parts: seq<string>, c: char, y: string)
    requires |parts| >= 1
    ensures Join(parts + [y], c) == Join(parts, c) + [c] + y
  {
    if |parts| > 1 {
      assert (parts + [y])[1..] == parts[1..] + [y];
      JoinSnoc(parts[1..], c, y);
    }
  }

  /** `s.lstrip(c)` */
  function StripLeading(s: string, c: char): (r: string)
    ensures |r| <= |s| && r == s[|s| - |r|..]
    ensures |r| > 0 ==> r[0] != c
    ensures forall k :: 0 <= k < |s| - |r| ==> s[k] == c
  {
    if |s| > 0 && s[0] == c then StripLeading(s[1..], c) else s
  }

  /** `s.rstrip(c)` */
  function StripTrailing(s: string, c: char): (r: string)
    ensures |r| <= |s| && r == s[..|r|]
    ensures |r| > 0 ==> r[|r| - 1] != c
    ensures forall k :: |r| <= k < |s| ==> s[k] == c
  {
    if |s| > 0 && s[|s| - 1] == c then StripTrailing(s[..|s| - 1], c) else s
  }

  /** `s.strip(c)`: s without the c characters at either end. */
  function Strip(s: string, c: char): string
  {
    StripTrailing(StripLeading(s, c), c)
  }

  /** How many characters strip drops at the front of s. */
  function StripStart(s: string, c: char): (i: nat)
    ensures i <= |s|
  {
    |s| - |StripLeading(s, c)|
  }

  /** What strip keeps is the stretch of s from StripStart on, and it
      neither starts nor ends with c. */
  lemma StripKeeps(s: string, c: char)
    ensures var r, i := Strip(s, c), StripStart(s, c);
      && i + |r| <= |s| && r == s[i..i + |r|]
      && (|r| > 0 ==> r[0] != c && r[|r| - 1] != c)
  {
    var l := StripLeading(s, c);
    var i := |s| - |l|;
    assert l == s[i..];
  }

  /** What strip drops on either side of what it keeps is all c. */
  lemma StripDrops(s: string, c: char)
    ensures var r, i := Strip(s, c), StripStart(s, c);
      && i + |r| <= |s|
      && (forall k :: 0 <= k < i ==> s[k] == c)
      && (forall k :: i + |r| <= k < |s| ==> s[k] == c)
  {
    var l := StripLeading(s, c);
    var r := StripTrailing(l, c);
    var i := |s| - |l|;
    forall k | i + |r| <= k < |s|
      ensures s[k] == c
    {
      assert s[k] == l[k - i];
    }
  }

  /** Strip leaves a string without c at its ends as it is. */
  lemma StripUnchanged(s: string, c: char)
    requires |s| > 0 ==> s[0] != c && s[|s| - 1] != c
    ensures Strip(s, c) == s
  {
  }

  /** Stripping twice strips no more than stripping once. */
  lemma StripIdempotent(s: string, c: char)
    ensures Strip(Strip(s, c), c) == Strip(s, c)
  {
    StripKeeps(s, c);
    StripUnchanged(Strip(s, c), c);
  }

  /** The decimal digit of d. */
  function Digit(d: nat): (ch: char)
    requires d < 10
    ensures '0' <= ch <= '9' && DigitValue(ch) == d
  {
    ('0' as int + d) as char
  }

  /** The value of a decimal digit character. */
  function DigitValue(ch: char): nat
  {
    if '0' <= ch <= '9' then (ch - '0') as nat else 0
  }

  /** `'%d' % n` for n >= 0: decimal, no leading zeros. */
  function FormatNat(n: nat): (r: string)
    ensures |r| >= 1 && forall k :: 0 <= k < |r| ==> '0' <= r[k] <= '9'
  {
    if n < 10 then [Digit(n)] else FormatNat(n / 10) + [Digit(n % 10)]
  }

  /** `'%d'` does not pad: the first digit is '0' only for 0 itself, so a
      number of two or more digits starts with a nonzero digit. */
  lemma {:induction false} FormatNatLeadingDigit(n: nat)
    ensures FormatNat(n)[0] == '0' <==> n == 0
    ensures |FormatNat(n)| > 1 ==> FormatNat(n)[0] != '0'
  {
    if n >= 10 {
      FormatNatLeadingDigit(n / 10);
      assert FormatNat(n)[0] == FormatNat(n / 10)[0];
    }
  }

  /** `'%d' % n`: a minus sign before the digits of a negative number. */
  function FormatInt(n: int): (r: string)
    ensures |r| >= 1
  {
    if n < 0 then "-" + FormatNat(-n) else FormatNat(n)
  }

  /** The value of a string of decimal digits. */
  function ParseNat(s: string): nat
  {
    if |s| == 0 then 0 else 10 * ParseNat(s[..|s| - 1]) + DigitValue(s[|s| - 1])
  }

  /** `int(s)` on what `'%d'` produces. */
  function ParseInt(s: string): int
  {
    if |s| > 0 && s[0] == '-' then -(ParseNat(s[1..]) as int) else ParseNat(s)
  }

  /** Reading the digits back gives the number. */
  lemma {:induction false} ParseFormatNat(n: nat)
    ensures ParseNat(FormatNat(n)) == n
  {
    var s := FormatNat(n);
    if n >= 10 {
      ParseFormatNat(n / 10);
      assert s[..|s| - 1] == FormatNat(n / 10);
      assert ParseNat(s) == 10 * (n / 10) + n % 10;
    } else {
      assert s[..0] == "";
    }
  }

  /** Reading a formatted integer back gives the integer. */
  lemma ParseFormatInt(n: int)
    ensures ParseInt(FormatInt(n)) == n
  {
    if n < 0 {
      var digits := FormatNat(-n);
      ParseFormatNat(-n);
      assert ("-" + digits)[1..] == digits;
    } else {
      var digits := FormatNat(n);
      ParseFormatNat(n);
      assert digits[0] != '-';
    }
  }

  /** A formatted integer holds only digits and possibly a minus sign. */
  lemma FormatIntExcludes(n: int, c: char)
    requires c != '-' && !('0' <= c <= '9')
    ensures c !in FormatInt(n)
  {
    if n < 0 {
      assert FormatInt(n) == ['-'] + FormatNat(-n);
    }
  }

  /** Different integers print differently. */
  lemma FormatIntInjective(a: int, b: int)
    requires FormatInt(a) == FormatInt(b)
    ensures a == b
  {
    ParseFormatInt(a);
    ParseFormatInt(b);
  }
}
