/** The Python string operations the node and its command shell rely on:
    str.isspace/str.strip, str.find, str.split with a one-character
    separator, int() on base-10 text and str() of an integer. Only the
    behaviour the core depends on is modelled; int() is restricted to ASCII
    digits and neither conversion has a limit on the number of digits. */
module Text {
  import opened Results

  /** The characters str.isspace() accepts, which str.strip() removes. */
  predicate IsSpace(c: char)
  {
    || c == ' '
    || '\t' <= c <= '\r'
    || '\U{1c}' <= c <= '\U{1f}'
    || c == '\U{85}' || c == '\U{a0}' || c == '\U{1680}'
    || '\U{2000}' <= c <= '\U{200a}'
    || c == '\U{2028}' || c == '\U{2029}' || c == '\U{202f}' || c == '\U{205f}' || c == '\U{3000}'
  }

  /** The characters int() skips around its digits. CPython first turns
      every non-ASCII whitespace character into ' ', then skips the ASCII
      characters the C library's isspace() accepts: ' ' and '\t' through
      '\r'. The separators U+001C to U+001F, which str.isspace() accepts,
      are not skipped. */
  predicate IsIntSpace(c: char)
  {
    IsSpace(c) && !('\U{1c}' <= c <= '\U{1f}')
  }

  /** Which characters a trim removes: those str.isspace() accepts, as
      str.strip() does, or those int() skips around its digits. */
  datatype Blanks = StripBlanks | IntBlanks

  predicate IsBlank(blanks: Blanks, c: char)
  {
    match blanks
    case StripBlanks => IsSpace(c)
    case IntBlanks => IsIntSpace(c)
  }

  predicate IsDigit(c: char)
  {
    '0' <= c <= '9'
  }

  predicate StartsWith(s: string, prefix: string)
  {
    |prefix| <= |s| && s[..|prefix|] == prefix
  }

  /** Leading whitespace removed: a suffix of s, preceded only by whitespace. */
  function TrimLeft(s: string, blanks: Blanks): (r: string)
    ensures |r| <= |s| && r == s[|s| - |r|..]
    ensures forall i :: 0 <= i < |s| - |r| ==> IsBlank(blanks, s[i])
    ensures r != [] ==> !IsBlank(blanks, r[0])
  {
    if s != [] && IsBlank(blanks, s[0]) then TrimLeft(s[1..], blanks) else s
  }

  /** Trailing whitespace removed: a prefix of s, followed only by whitespace. */
  function TrimRight(s: string, blanks: Blanks): (r: string)
    ensures |r| <= |s| && r == s[..|r|]
    ensures forall i :: |r| <= i < |s| ==> IsBlank(blanks, s[i])
    ensures r != [] ==> !IsBlank(blanks, r[|r| - 1])
  {
    if s != [] && IsBlank(blanks, s[|s| - 1]) then TrimRight(s[..|s| - 1], blanks) else s
  }

  /** Whitespace removed from both ends: the infix of s that neither starts
      nor ends with whitespace, with only whitespace cut away on either side. */
  function Trim(s: string, blanks: Blanks): (r: string)
    ensures var i := |s| - |TrimLeft(s, blanks)|;
      && i + |r| <= |s|
      && r == s[i..i + |r|]
      && (forall k :: 0 <= k < i ==> IsBlank(blanks, s[k]))
      && (forall k :: i + |r| <= k < |s| ==> IsBlank(blanks, s[k]))
    ensures r != [] ==> !IsBlank(blanks, r[0]) && !IsBlank(blanks, r[|r| - 1])
  {
    var left := TrimLeft(s, blanks);
    var r := TrimRight(left, blanks);
    assert r == s[|s| - |left|..][..|r|];
    r
  }

  /** str.strip(). */
  function Strip(s: string): string
  {
    Trim(s, StripBlanks)
  }

  /** The text int() reads its sign and digits from. */
  function IntStrip(s: string): string
  {
    Trim(s, IntBlanks)
  }

  /** Text that already neither starts nor ends with whitespace is left alone. */
  lemma TrimTrimmed(s: string, blanks: Blanks)
    requires s != [] ==> !IsBlank(blanks, s[0]) && !IsBlank(blanks, s[|s| - 1])
    ensures Trim(s, blanks) == s
  {
  }

  /** Whitespace added around trimmed text is exactly what trimming removes. */
  lemma {:induction false} TrimPadded(pre: string, t: string, post: string, blanks: Blanks)
    requires forall i :: 0 <= i < |pre| ==> IsBlank(blanks, pre[i])
    requires forall i :: 0 <= i < |post| ==> IsBlank(blanks, post[i])
    requires t != [] && !IsBlank(blanks, t[0]) && !IsBlank(blanks, t[|t| - 1])
    ensures Trim(pre + t + post, blanks) == t
  {
    var padded := pre + t + post;
    assert padded == pre + (t + post);
    TrimLeftPadded(pre, t + post, blanks);
    TrimRightPadded(t, post, blanks);
    assert Trim(padded, blanks) == TrimRight(t + post, blanks);
  }

  lemma {:induction false} TrimLeftPadded(pre: string, s: string, blanks: Blanks)
    requires forall i :: 0 <= i < |pre| ==> IsBlank(blanks, pre[i])
    requires s != [] && !IsBlank(blanks, s[0])
    ensures TrimLeft(pre + s, blanks) == s
    decreases |pre|
  {
    if pre != [] {
      assert (pre + s)[1..] == pre[1..] + s;
      TrimLeftPadded(pre[1..], s, blanks);
    } else {
      assert pre + s == s;
    }
  }

  lemma {:induction false} TrimRightPadded(s: string, post: string, blanks: Blanks)
    requires forall i :: 0 <= i < |post| ==> IsBlank(blanks, post[i])
    requires s != [] && !IsBlank(blanks, s[|s| - 1])
    ensures TrimRight(s + post, blanks) == s
    decreases |post|
  {
    if post != [] {
      var shorter := post[..|post| - 1];
      assert (s + post)[..|s + post| - 1] == s + shorter;
      TrimRightPadded(s, shorter, blanks);
    } else {
      assert s + post == s;
    }
  }

  /** str.find(c): the index of the first occurrence of c, or -1 when c is absent. */
  function Find(s: string, c: char): (r: int)
    ensures -1 <= r < |s|
    ensures r == -1 <==> c !in s
    ensures r >= 0 ==> s[r] == c && c !in s[..r]
  {
    if s == [] then -1
    else if s[0] == c then 0
    else
      var k := Find(s[1..], c);
      assert s[1..][..k + 1] == s[1..k + 2] by { }
      if k < 0 then -1 else k + 1
  }

  /** The separator put back between consecutive parts. */
  function Join(parts: seq<string>, sep: char): string
    requires |parts| >= 1
  {
    if |parts| == 1 then parts[0] else parts[0] + [sep] + Join(parts[1..], sep)
  }

  lemma JoinCons(first: string, rest: seq<string>, sep: char)
    requires |rest| >= 1
    ensures Join([first] + rest, sep) == first + [sep] + Join(rest, sep)
  {
    assert ([first] + rest)[1..] == rest;
  }

  /** str.split(sep): the pieces between occurrences of the separator, in order. */
  function Split(s: string, sep: char): (parts: seq<string>)
    ensures |parts| >= 1
    decreases |s|
  {
    var k := Find(s, sep);
    if k < 0 then [s] else [s[..k]] + Split(s[k + 1..], sep)
  }

  /** Splitting yields one piece exactly when the separator is absent, and
      otherwise the text before its first occurrence, then the split of the rest. */
  lemma SplitShape(s: string, sep: char)
    ensures sep !in s ==> Split(s, sep) == [s]
    ensures sep in s ==>
      var k := Find(s, sep);
      Split(s, sep) == [s[..k]] + Split(s[k + 1..], sep) && |Split(s, sep)| >= 2
  {
  }

  /** No piece contains the separator. */
  lemma {:induction false} SplitPiecesFree(s: string, sep: char)
    ensures forall i :: 0 <= i < |Split(s, sep)| ==> sep !in Split(s, sep)[i]
    decreases |s|
  {
    var k := Find(s, sep);
    var parts := Split(s, sep);
    if k < 0 {
      assert parts == [s] && sep !in s;
    } else {
      var tail := s[k + 1..];
      SplitPiecesFree(tail, sep);
      var rest := Split(tail, sep);
      assert parts == [s[..k]] + rest;
      assert sep !in s[..k];
      forall i | 0 <= i < |parts|
        ensures sep !in parts[i]
      {
        if i == 0 {
          assert parts[i] == s[..k];
        } else {
          assert parts[i] == rest[i - 1];
        }
      }
    }
  }

  /** Putting the separator back between the pieces gives the original text. */
  lemma {:induction false} SplitJoin(s: string, sep: char)
    ensures Join(Split(s, sep), sep) == s
    decreases |s|
  {
    var k := Find(s, sep);
    if k >= 0 {
      var tail := s[k + 1..];
      var rest := Split(tail, sep);
      SplitJoin(tail, sep);
      assert Split(s, sep) == [s[..k]] + rest;
      JoinCons(s[..k], rest, sep);
      Around(s, k);
    }
  }

  lemma Around<T>(s: seq<T>, k: int)
    requires 0 <= k < |s|
    ensures s[..k] + [s[k]] + s[k + 1..] == s
  {
  }

  /** A base-10 digit run as int() accepts it: ASCII digits, with single
      underscores allowed between two digits. */
  predicate IsDigitRun(s: string)
  {
    && s != []
    && IsDigit(s[0])
    && IsDigit(s[|s| - 1])
    && DigitsOrUnderscores(s)
    && forall i :: 0 <= i < |s| - 1 && s[i] == '_' ==> s[i + 1] != '_'
  }

  predicate DigitsOrUnderscores(s: string)
  {
    forall i :: 0 <= i < |s| ==> IsDigit(s[i]) || s[i] == '_'
  }

  function DigitOf(c: char): nat
    requires IsDigit(c)
  {
    c as int - '0' as int
  }

  function CharOfDigit(d: nat): (c: char)
    requires d < 10
    ensures IsDigit(c) && DigitOf(c) == d
  {
    ('0' as int + d) as char
  }

  /** The number a digit run denotes, underscores ignored. */
  function RunValue(s: string): nat
    requires DigitsOrUnderscores(s)
  {
    if s == [] then 0
    else if s[|s| - 1] == '_' then RunValue(s[..|s| - 1])
    else RunValue(s[..|s| - 1]) * 10 + DigitOf(s[|s| - 1])
  }

  /** An optional sign followed by a digit run, and nothing else. */
  predicate IsSignedRun(t: string)
  {
    || IsDigitRun(t)
    || (t != [] && (t[0] == '+' || t[0] == '-') && IsDigitRun(t[1..]))
  }

  /** The number a signed run denotes. */
  function SignedValue(t: string): int
    requires IsSignedRun(t)
  {
    var magnitude: int := if t[0] == '-' || t[0] == '+' then RunValue(t[1..]) else RunValue(t);
    if t[0] == '-' then -magnitude else magnitude
  }

  /** Python's int(text) in base 10: whitespace int() skips on either side,
      an optional sign, then a digit run; None where int() raises
      ValueError. Leading zeros and single underscores between digits are
      accepted, as in "007" and "1_000". */
  function ParseInt(s: string): (r: Option<int>)
    ensures r.Some? <==> IsSignedRun(IntStrip(s))
    ensures r.Some? ==> r.value == SignedValue(IntStrip(s))
  {
    ParseSignedRun(IntStrip(s))
  }

  /** Reading the trimmed text: a sign is taken off first, then what is left
      must be a digit run. */
  function ParseSignedRun(t: string): Option<int>
  {
    if t != [] && (t[0] == '+' || t[0] == '-') then
      if IsDigitRun(t[1..]) then
        var magnitude: int := RunValue(t[1..]);
        Some(if t[0] == '-' then -magnitude else magnitude)
      else None
    else if IsDigitRun(t) then Some(RunValue(t))
    else None
  }

  /** The decimal digits of a natural number, most significant first. */
  function Digits(n: nat): (r: string)
    ensures r != []
    ensures forall i :: 0 <= i < |r| ==> IsDigit(r[i])
    ensures r[0] != '0' || r == "0"
  {
    if n < 10 then [CharOfDigit(n)] else Digits(n / 10) + [CharOfDigit(n % 10)]
  }

  /** str(n) for an integer n. */
  function DecimalString(n: int): (r: string)
    ensures r != [] && IsDigit(r[|r| - 1])
    ensures forall i :: 0 <= i < |r| ==> r[i] == '-' || IsDigit(r[i])
    ensures r[0] == '-' <==> n < 0
    ensures var digits := if n < 0 then r[1..] else r; digits[0] != '0' || |digits| == 1
  {
    if n < 0 then "-" + Digits(-n) else Digits(n)
  }

  lemma {:induction false} DigitsValue(n: nat)
    ensures RunValue(Digits(n)) == n
  {
    if n >= 10 {
      var d := Digits(n);
      assert d[..|d| - 1] == Digits(n / 10);
      DigitsValue(n / 10);
    }
  }

  lemma DigitsAreRun(n: nat)
    ensures IsDigitRun(Digits(n))
  {
    var d := Digits(n);
    assert DigitsOrUnderscores(d);
  }

  /** int(str(n)) == n: the decimal text of any integer reads back as that integer. */
  lemma ParseDecimal(n: int)
    ensures ParseInt(DecimalString(n)) == Some(n)
  {
    TrimTrimmed(DecimalString(n), IntBlanks);
    if n < 0 {
      ParseNegativeDecimal(n);
    } else {
      DigitsValue(n);
      DigitsAreRun(n);
      ParseUnsigned(DecimalString(n));
    }
  }

  lemma ParseNegativeDecimal(n: int)
    requires n < 0
    ensures ParseSignedRun(DecimalString(n)) == Some(n)
  {
    var d := Digits(-n);
    DigitsValue(-n);
    DigitsAreRun(-n);
    var s := DecimalString(n);
    assert s == ['-'] + d;
    ParseSigned(s, d, -n);
  }

  lemma ParseSigned(s: string, d: string, m: nat)
    requires s == ['-'] + d && IsDigitRun(d) && RunValue(d) == m
    ensures ParseSignedRun(s) == Some(-(m as int))
  {
    assert s[1..] == d;
  }

  lemma ParseUnsigned(s: string)
    requires IsDigitRun(s)
    ensures ParseSignedRun(s) == Some(RunValue(s))
  {
  }

  /** int() reads any signed run, whatever whitespace it skips surrounds
      it, as the number the run denotes. */
  lemma ParsePaddedRun(pre: string, t: string, post: string)
    requires forall i :: 0 <= i < |pre| ==> IsIntSpace(pre[i])
    requires forall i :: 0 <= i < |post| ==> IsIntSpace(post[i])
    requires IsSignedRun(t)
    ensures ParseInt(pre + t + post) == Some(SignedValue(t))
  {
    TrimPadded(pre, t, post, IntBlanks);
  }

  /** int() tolerates the whitespace it skips around the decimal text of a number. */
  lemma ParsePaddedDecimal(pre: string, n: int, post: string)
    requires forall i :: 0 <= i < |pre| ==> IsIntSpace(pre[i])
    requires forall i :: 0 <= i < |post| ==> IsIntSpace(post[i])
    ensures ParseInt(pre + DecimalString(n) + post) == Some(n)
  {
    var s := DecimalString(n);
    TrimPadded(pre, s, post, IntBlanks);
    TrimTrimmed(s, IntBlanks);
    ParseDecimal(n);
  }

  /** A separator character from U+001C to U+001F in front of a number
      makes int() fail, although str.strip() removes it. */
  lemma SeparatorNotSkipped(c: char, t: string)
    requires '\U{1c}' <= c <= '\U{1f}'
    requires IsSignedRun(t)
    ensures Strip([c] + t) == t
    ensures ParseInt([c] + t) == None
  {
    assert IsDigit(t[|t| - 1]);
    SeparatorStripped(c, t);
    SeparatorKept(c, t);
    NotSignedRun([c] + t);
  }

  /** Text that starts with neither a sign nor a digit is no signed run. */
  lemma NotSignedRun(t: string)
    requires t != [] && !IsDigit(t[0]) && t[0] != '+' && t[0] != '-'
    ensures !IsSignedRun(t)
  {
  }

  lemma SeparatorStripped(c: char, d: string)
    requires '\U{1c}' <= c <= '\U{1f}'
    requires d != [] && !IsSpace(d[0]) && !IsSpace(d[|d| - 1])
    ensures Strip([c] + d) == d
  {
  }

  lemma SeparatorKept(c: char, d: string)
    requires '\U{1c}' <= c <= '\U{1f}'
    requires d != [] && !IsIntSpace(d[|d| - 1])
    ensures IntStrip([c] + d) == [c] + d
  {
    var t := [c] + d;
    assert t[|t| - 1] == d[|d| - 1];
    TrimTrimmed(t, IntBlanks);
  }

  /** Distinct integers have distinct decimal texts. */
  lemma DecimalInjective(a: int, b: int)
    requires DecimalString(a) == DecimalString(b)
    ensures a == b
  {
    ParseDecimal(a);
    ParseDecimal(b);
  }
}
