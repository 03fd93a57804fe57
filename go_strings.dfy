/** Pure models of the Go library helpers the dispatcher relies on:
    strings.Split with a one-byte separator, strings.TrimSpace over ASCII
    white space, strings.HasSuffix and strconv.ParseInt(s, 10, 32).
    A Go string is modelled as a sequence of chars, one char per byte. */
module GoStrings {
  import opened Wrappers

  // ---------------------------------------------------------------------
  // strings.Split and its inverse, strings.Join
  // ---------------------------------------------------------------------

  /** The index of the first occurrence of c in s, or |s| when c does not occur. */
  function IndexOf(s: string, c: char): (i: nat)
    ensures i <= |s|
    ensures i == |s| <==> c !in s
    ensures i < |s| ==> s[i] == c
    ensures forall j :: 0 <= j < i ==> s[j] != c
  {
    if s == [] then 0 else if s[0] == c then 0 else 1 + IndexOf(s[1..], c)
  }

  /** The fields joined back together with sep between neighbours. */
  function Join(fields: seq<string>, sep: char): string
  {
    if |fields| == 0 then ""
    else if |fields| == 1 then fields[0]
    else fields[0] + [sep] + Join(fields[1..], sep)
  }

  /** strings.Split(s, string(sep)): the maximal sep-free pieces of s, in order.
      There is always at least one field (Split("") is [""]); the first field
      is the text before the first sep. */
  function Split(s: string, sep: char): (fields: seq<string>)
    ensures |fields| >= 1
    ensures forall i :: 0 <= i < |fields| ==> sep !in fields[i]
    ensures fields[0] == s[..IndexOf(s, sep)]
    ensures sep !in s <==> fields == [s]
    decreases |s|
  {
    var i := IndexOf(s, sep);
    if i == |s| then
      assert s[..i] == s;
      [s]
    else
      [s[..i]] + Split(s[i + 1..], sep)
  }

  lemma JoinCons(field: string, rest: seq<string>, sep: char)
    requires |rest| >= 1
    ensures Join([field] + rest, sep) == field + [sep] + Join(rest, sep)
  {
    assert ([field] + rest)[1..] == rest;
  }

  /** Joining the fields of s with sep gives s back. */
  lemma {:induction false} SplitJoinsBack(s: string, sep: char)
    ensures Join(Split(s, sep), sep) == s
    decreases |s|
  {
    var i := IndexOf(s, sep);
    if i < |s| {
      var head, tail := s[..i], s[i + 1..];
      assert s == head + [sep] + tail;
      var rest := Split(tail, sep);
      SplitJoinsBack(tail, sep);
      assert Split(s, sep) == [head] + rest;
      JoinCons(head, rest, sep);
    } else {
      assert Split(s, sep) == [s];
    }
  }

  /** Splitting at the first separator: the text before it is the first field. */
  lemma SplitAfterField(x: string, sep: char, y: string)
    requires sep !in x
    ensures Split(x + [sep] + y, sep) == [x] + Split(y, sep)
  {
    var s := x + [sep] + y;
    var i := IndexOf(s, sep);
    assert s[|x|] == sep;
    assert forall j :: 0 <= j < |x| ==> s[j] == x[j];
    assert i == |x|;
    assert s[..i] == x;
    assert s[i + 1..] == y;
  }

  /** Two separator-free fields joined by the separator split back into them. */
  lemma SplitPair(x: string, sep: char, y: string)
    requires sep !in x && sep !in y
    ensures Split(x + [sep] + y, sep) == [x, y]
  {
    SplitAfterField(x, sep, y);
    assert Split(y, sep) == [y];
  }

  /** Regrouping the text of SplitTriple around its first separator. */
  lemma ConcatRegroup(x: string, sep: char, y: string, z: string)
    ensures x + [sep] + y + [sep] + z == x + [sep] + (y + [sep] + z)
  {
    var lhs := x + [sep] + y + [sep] + z;
    var rhs := x + [sep] + (y + [sep] + z);
    assert |lhs| == |rhs|;
    forall i | 0 <= i < |lhs|
      ensures lhs[i] == rhs[i]
    {
    }
  }

  /** SplitTriple with the text after the first separator grouped. */
  lemma SplitNested(x: string, sep: char, y: string, z: string)
    requires sep !in x && sep !in y
    ensures Split(x + [sep] + (y + [sep] + z), sep) == [x, y] + Split(z, sep)
  {
    var rest := y + [sep] + z;
    var tail := Split(z, sep);
    assert Split(rest, sep) == [y] + tail by { SplitAfterField(y, sep, z); }
    assert Split(x + [sep] + rest, sep) == [x] + Split(rest, sep) by { SplitAfterField(x, sep, rest); }
    PrependTwo(x, y, tail);
  }

  /** Two single-element prefixes make one two-element prefix. */
  lemma PrependTwo<T>(a: T, b: T, tail: seq<T>)
    ensures [a] + ([b] + tail) == [a, b] + tail
  {
    assert [a, b] == [a] + [b];
  }

  /** Two separator-free fields followed by the separator and any text split
      into those two fields followed by the fields of that text. */
  lemma SplitTriple(x: string, sep: char, y: string, z: string)
    requires sep !in x && sep !in y
    ensures Split(x + [sep] + y + [sep] + z, sep) == [x, y] + Split(z, sep)
  {
    ConcatRegroup(x, sep, y, z);
    SplitNested(x, sep, y, z);
  }

  /** A char that is neither the separator nor in any field is not in the join. */
  lemma {:induction false} JoinAvoids(fields: seq<string>, sep: char, c: char)
    requires c != sep
    requires forall i :: 0 <= i < |fields| ==> c !in fields[i]
    ensures c !in Join(fields, sep)
    decreases |fields|
  {
    if |fields| > 1 {
      JoinAvoids(fields[1..], sep, c);
      assert c !in fields[0];
    }
  }

  /** Split is the inverse of Join on sep-free fields: the fields Split
      produces are the only sep-free fields that join to the input. */
  lemma {:induction false} SplitJoin(fields: seq<string>, sep: char)
    requires |fields| >= 1
    requires forall i :: 0 <= i < |fields| ==> sep !in fields[i]
    ensures Split(Join(fields, sep), sep) == fields
    decreases |fields|
  {
    if |fields| == 1 {
      assert sep !in fields[0];
    } else {
      SplitAfterField(fields[0], sep, Join(fields[1..], sep));
      SplitJoin(fields[1..], sep);
      assert [fields[0]] + fields[1..] == fields;
    }
  }

  // ---------------------------------------------------------------------
  // strings.TrimSpace, strings.HasSuffix
  // ---------------------------------------------------------------------

  /** The ASCII white space strings.TrimSpace removes: \t \n \v \f \r and space. */
  predicate IsSpace(c: char)
  {
    c == ' ' || c == '\t' || c == '\n' || c == '\U{000B}' || c == '\U{000C}' || c == '\r'
  }

  /** The number of white-space chars at the front of s. */
  function LeadingSpaces(s: string): (n: nat)
    ensures n <= |s|
    ensures forall k :: 0 <= k < n ==> IsSpace(s[k])
    ensures n < |s| ==> !IsSpace(s[n])
  {
    if s != [] && IsSpace(s[0]) then 1 + LeadingSpaces(s[1..]) else 0
  }

  /** The number of white-space chars at the back of s. */
  function TrailingSpaces(s: string): (n: nat)
    ensures n <= |s|
    ensures forall k :: |s| - n <= k < |s| ==> IsSpace(s[k])
    ensures n < |s| ==> !IsSpace(s[|s| - 1 - n])
  {
    if s != [] && IsSpace(s[|s| - 1]) then 1 + TrailingSpaces(s[..|s| - 1]) else 0
  }

  /** strings.TrimSpace: s without its leading and trailing white space.
      The result is the window of s that starts at the first non-space char
      and ends at the last one; every char of s outside it is white space. */
  function TrimSpace(s: string): (r: string)
    ensures LeadingSpaces(s) + |r| <= |s|
    ensures r == s[LeadingSpaces(s)..LeadingSpaces(s) + |r|]
    ensures forall k :: 0 <= k < LeadingSpaces(s) ==> IsSpace(s[k])
    ensures forall k :: LeadingSpaces(s) + |r| <= k < |s| ==> IsSpace(s[k])
    ensures r != [] ==> !IsSpace(r[0]) && !IsSpace(r[|r| - 1])
    ensures r == [] <==> forall k :: 0 <= k < |s| ==> IsSpace(s[k])
    ensures s == [] || (!IsSpace(s[0]) && !IsSpace(s[|s| - 1])) ==> r == s
  {
    var i := LeadingSpaces(s);
    var rest := s[i..];
    var j := TrailingSpaces(rest);
    if rest == [] then
      ""
    else
      TrimWindow(s, i, rest, j);
      rest[..|rest| - j]
  }

  /** The window TrimSpace returns when s is not all white space: s[i] is
      its first non-space char and the j chars of rest = s[i..] at the back
      are the trailing white space. What lies after the window is white
      space, and the window neither starts nor ends with white space. */
  lemma TrimWindow(s: string, i: nat, rest: string, j: nat)
    requires i < |s| && rest == s[i..] && !IsSpace(s[i])
    requires j <= |rest| && forall k :: |rest| - j <= k < |rest| ==> IsSpace(rest[k])
    requires j < |rest| ==> !IsSpace(rest[|rest| - 1 - j])
    ensures j < |rest|
    ensures rest[..|rest| - j] == s[i..|s| - j]
    ensures forall k :: |s| - j <= k < |s| ==> IsSpace(s[k])
    ensures !IsSpace(rest[0]) && !IsSpace(rest[|rest| - 1 - j])
  {
    assert rest[0] == s[i];
    assert j < |rest|;
    assert rest[..|rest| - j] == s[i..|s| - j];
    forall k | |s| - j <= k < |s|
      ensures IsSpace(s[k])
    {
      assert s[k] == rest[k - i];
    }
  }

  /** strings.HasSuffix. */
  predicate HasSuffix(s: string, suffix: string)
  {
    |suffix| <= |s| && s[|s| - |suffix|..] == suffix
  }

  // ---------------------------------------------------------------------
  // strconv.ParseInt(s, 10, 32)
  // ---------------------------------------------------------------------

  const MaxUint32: int := 0xFFFF_FFFF
  const MinInt32: int := -0x8000_0000
  const MaxInt32: int := 0x7FFF_FFFF

  /** The two errors strconv reports: strconv.ErrSyntax and strconv.ErrRange. */
  datatype NumError = ErrSyntax | ErrRange

  predicate InInt32(n: int)
  {
    MinInt32 <= n <= MaxInt32
  }

  predicate IsDigit(c: char)
  {
    '0' <= c <= '9'
  }

  function DigitValue(c: char): (d: nat)
    requires IsDigit(c)
    ensures d < 10
  {
    (c as int) - ('0' as int)
  }

  predicate AllDigits(s: string)
  {
    forall i :: 0 <= i < |s| ==> IsDigit(s[i])
  }

  /** The value of the decimal digits s, read after digits already worth acc. */
  function Horner(acc: nat, s: string): nat
    requires AllDigits(s)
    decreases |s|
  {
    if s == [] then acc else Horner(acc * 10 + DigitValue(s[0]), s[1..])
  }

  lemma {:induction false} HornerAtLeast(acc: nat, s: string)
    requires AllDigits(s)
    ensures Horner(acc, s) >= acc
    decreases |s|
  {
    if s != [] {
      HornerAtLeast(acc * 10 + DigitValue(s[0]), s[1..]);
    }
  }

  lemma {:induction false} HornerSnoc(acc: nat, s: string, c: char)
    requires AllDigits(s) && IsDigit(c)
    ensures AllDigits(s + [c])
    ensures Horner(acc, s + [c]) == Horner(acc, s) * 10 + DigitValue(c)
    decreases |s|
  {
    if s == [] {
      assert [c][1..] == [];
    } else {
      assert (s + [c])[1..] == s[1..] + [c];
      HornerSnoc(acc * 10 + DigitValue(s[0]), s[1..], c);
    }
  }

  /** s without one leading '+' or '-'. */
  function Unsigned(s: string): string
  {
    if s != [] && (s[0] == '+' || s[0] == '-') then s[1..] else s
  }

  /** The text strconv.ParseInt accepts in base 10, ignoring range: an optional
      sign followed by one or more decimal digits (no underscores, no prefix). */
  predicate IsDecimal(s: string)
  {
    |Unsigned(s)| >= 1 && AllDigits(Unsigned(s))
  }

  /** The number a decimal text stands for. */
  function DecimalValue(s: string): int
    requires IsDecimal(s)
  {
    var magnitude: int := Horner(0, Unsigned(s));
    if s[0] == '-' then -magnitude else magnitude
  }

  /** The digit loop of strconv.ParseUint for base 10 and bit size 32: a
      non-digit is a syntax error, and a value above 2^32-1 is a range error
      reported as soon as the accumulated value passes it. */
  function ScanDigits(s: string, acc: nat): (r: Result<nat, NumError>)
    requires acc <= MaxUint32
    ensures r.Success? <==> AllDigits(s) && Horner(acc, s) <= MaxUint32
    ensures r.Success? ==> r.value == Horner(acc, s)
    ensures AllDigits(s) && Horner(acc, s) > MaxUint32 ==> r == Failure(ErrRange)
    decreases |s|
  {
    if s == [] then Success(acc)
    else if !IsDigit(s[0]) then Failure(ErrSyntax)
    else
      var n := acc * 10 + DigitValue(s[0]);
      if n > MaxUint32 then
        assert AllDigits(s) ==> Horner(acc, s) >= n by {
          if AllDigits(s) { HornerAtLeast(n, s[1..]); }
        }
        Failure(ErrRange)
      else
        ScanDigits(s[1..], n)
  }

  /** strconv.ParseUint(s, 10, 32): digits only, at least one of them, with
      a value of at most 2^32 - 1; a longer all-digit text is ErrRange. */
  function ParseUint32(s: string): (r: Result<nat, NumError>)
    ensures r.Success? <==> s != [] && AllDigits(s) && Horner(0, s) <= MaxUint32
    ensures r.Success? ==> r.value == Horner(0, s)
    ensures s != [] && AllDigits(s) && Horner(0, s) > MaxUint32 ==> r == Failure(ErrRange)
  {
    if s == [] then Failure(ErrSyntax) else ScanDigits(s, 0)
  }

  /** strconv.ParseInt(s, 10, 32): succeeds exactly on an optionally signed
      decimal text whose value lies in the signed 32-bit range, and then
      returns that value; an in-format text outside the range is ErrRange. */
  function ParseInt32(s: string): (r: Result<int, NumError>)
    ensures r.Success? <==> IsDecimal(s) && InInt32(DecimalValue(s))
    ensures r.Success? ==> r.value == DecimalValue(s)
    ensures IsDecimal(s) && !InInt32(DecimalValue(s)) ==> r == Failure(ErrRange)
    ensures s == "" ==> r == Failure(ErrSyntax)
  {
    if s == [] then Failure(ErrSyntax)
    else
      var neg := s[0] == '-';
      match ParseUint32(Unsigned(s))
      case Failure(ErrSyntax) => Failure(ErrSyntax)
      case Failure(ErrRange) => Failure(ErrRange)
      case Success(un) =>
        if !neg && un >= 0x8000_0000 then Failure(ErrRange)
        else if neg && un > 0x8000_0000 then Failure(ErrRange)
        else
          var magnitude: int := un;
          Success(if neg then -magnitude else magnitude)
  }

  // ---------------------------------------------------------------------
  // Decimal formatting, the inverse of ParseInt32 on the 32-bit range
  // ---------------------------------------------------------------------

  function DigitChar(d: nat): (c: char)
    requires d < 10
    ensures IsDigit(c) && DigitValue(c) == d
  {
    ('0' as int + d) as char
  }

  /** The shortest decimal digits of n. */
  function DecimalDigits(n: nat): (s: string)
    ensures |s| >= 1 && AllDigits(s)
    ensures Horner(0, s) == n
    decreases n
  {
    if n < 10 then
      assert Horner(0, [DigitChar(n)]) == Horner(n, []);
      [DigitChar(n)]
    else
      var front := DecimalDigits(n / 10);
      HornerSnoc(0, front, DigitChar(n % 10));
      front + [DigitChar(n % 10)]
  }

  /** The decimal text of n, with '-' before the digits of a negative
      number: the inverse of ParseInt32, used to state its round trip. */
  function FormatDecimal(n: int): (s: string)
    ensures IsDecimal(s) && DecimalValue(s) == n
    ensures forall i :: 0 <= i < |s| ==> s[i] == '-' || IsDigit(s[i])
  {
    if n < 0 then "-" + DecimalDigits(-n) else DecimalDigits(n)
  }

  /** Parsing the decimal form of any signed 32-bit value gives it back. */
  lemma ParseFormatRoundTrip(n: int)
    requires InInt32(n)
    ensures ParseInt32(FormatDecimal(n)) == Success(n)
  {
  }
}
