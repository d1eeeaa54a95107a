/** The file-name counter of the schema writer: the number of digits in the decimal form
    of the list size fixes a pattern of that many zeros, and each counter value 1, 2, …
    is formatted with at least that many digits, padded with leading zeros. */
module Numbering {

  predicate IsDigit(c: char)
  {
    '0' <= c <= '9'
  }

  predicate IsDigits(s: string)
  {
    forall i :: 0 <= i < |s| ==> IsDigit(s[i])
  }

  function DigitChar(d: nat): (c: char)
    requires d < 10
    ensures IsDigit(c) && c as int - '0' as int == d
  {
    ('0' as int + d) as char
  }

  /** The number a string of decimal digits denotes (the empty string denotes 0). */
  function Value(s: string): nat
    requires IsDigits(s)
  {
    if |s| == 0 then 0 else Value(s[..|s| - 1]) * 10 + (s[|s| - 1] as int - '0' as int)
  }

  /** The decimal form of `n`, as `Integer.toString` writes a non-negative int: digits
      only, no leading zero except in "0", and denoting `n`. */
  function Decimal(n: nat): (s: string)
    ensures |s| >= 1 && IsDigits(s) && Value(s) == n
    ensures s[0] == '0' ==> n == 0
  {
    if n < 10 then [DigitChar(n)]
    else
      var s := Decimal(n / 10) + [DigitChar(n % 10)];
      assert s[..|s| - 1] == Decimal(n / 10);
      s
  }

  function Zeros(k: nat): (s: string)
    ensures |s| == k && forall i :: 0 <= i < k ==> s[i] == '0'
  {
    if k == 0 then [] else Zeros(k - 1) + ['0']
  }

  /** The pattern handed to the number format: one '0' per digit of `size`. */
  method ZeroPattern(size: nat) returns (digits: string)
    ensures |digits| == |Decimal(size)|
    ensures forall i :: 0 <= i < |digits| ==> digits[i] == '0'
  {
    digits := [];
    var i := 0;
    while i < |Decimal(size)|
      invariant 0 <= i <= |Decimal(size)|
      invariant |digits| == i && forall j :: 0 <= j < i ==> digits[j] == '0'
    {
      digits := digits + ['0'];
      i := i + 1;
    }
  }

  /** `n` formatted with at least `width` digits, padded with leading zeros (a number
      with more digits than `width` is written in full). */
  function FormatId(width: nat, n: nat): (s: string)
    ensures IsDigits(s) && Value(s) == n
    ensures |s| == if |Decimal(n)| < width then width else |Decimal(n)|
  {
    var d := Decimal(n);
    if |d| < width then
      ZerosPrefix(width - |d|, d);
      Zeros(width - |d|) + d
    else d
  }

  /** Leading zeros do not change the value. */
  lemma {:induction false} ZerosPrefix(k: nat, s: string)
    requires IsDigits(s)
    ensures IsDigits(Zeros(k) + s) && Value(Zeros(k) + s) == Value(s)
  {
    if |s| == 0 {
      assert Zeros(k) + s == Zeros(k);
      ZerosValue(k);
    } else {
      var init := s[..|s| - 1];
      ZerosPrefix(k, init);
      assert (Zeros(k) + s)[..|Zeros(k) + s| - 1] == Zeros(k) + init;
    }
  }

  lemma {:induction false} ZerosValue(k: nat)
    ensures Value(Zeros(k)) == 0
  {
    if k > 0 {
      ZerosValue(k - 1);
      assert Zeros(k)[..k - 1] == Zeros(k - 1);
    }
  }

  /** A larger number has at least as many decimal digits. */
  lemma {:induction false} DecimalLengthMonotone(m: nat, n: nat)
    requires m <= n
    ensures |Decimal(m)| <= |Decimal(n)|
  {
    if m >= 10 {
      DecimalLengthMonotone(m / 10, n / 10);
    }
  }

  /** Every counter value 1..size formats to exactly as many digits as `size` has. */
  lemma IdWidth(size: nat, n: nat)
    requires n <= size
    ensures |FormatId(|Decimal(size)|, n)| == |Decimal(size)|
  {
    DecimalLengthMonotone(n, size);
  }

  /** Two digit strings of the same length and value are the same string. */
  lemma {:induction false} ValueInjective(a: string, b: string)
    requires IsDigits(a) && IsDigits(b) && |a| == |b| && Value(a) == Value(b)
    ensures a == b
  {
    if |a| > 0 {
      var n := |a|;
      ValueInjective(a[..n - 1], b[..n - 1]);
      assert a == a[..n - 1] + [a[n - 1]];
      assert b == b[..n - 1] + [b[n - 1]];
    }
  }

  /** `a` sorts before `b` character by character, as a file listing orders names: the
      first characters decide, and on a tie the rest of both strings does. */
  predicate LexLess(a: string, b: string)
  {
    |a| > 0 && |b| > 0 && (a[0] < b[0] || (a[0] == b[0] && LexLess(a[1..], b[1..])))
  }

  /** Strings that agree up to a position where `a` holds the smaller character are in
      order. */
  lemma {:induction false} LexLessAt(a: string, b: string, k: nat)
    requires k < |a| && k < |b| && a[..k] == b[..k] && a[k] < b[k]
    ensures LexLess(a, b)
  {
    if k > 0 {
      assert a[0] == a[..k][0] && b[0] == b[..k][0];
      assert a[1..][..k - 1] == a[..k][1..] && b[1..][..k - 1] == b[..k][1..];
      LexLessAt(a[1..], b[1..], k - 1);
    }
  }

  /** For digit strings of one length, numeric order is the character order a file
      listing sorts by. */
  lemma {:induction false} ValueOrderIsLexOrder(a: string, b: string)
    requires IsDigits(a) && IsDigits(b) && |a| == |b| && Value(a) < Value(b)
    ensures LexLess(a, b)
  {
    var n := |a|;
    var a', b' := a[..n - 1], b[..n - 1];
    if Value(a') < Value(b') {
      ValueOrderIsLexOrder(a', b');
      LexLessExtend(a', b', [a[n - 1]], [b[n - 1]]);
      assert a == a' + [a[n - 1]] && b == b' + [b[n - 1]];
    } else if Value(a') == Value(b') {
      ValueInjective(a', b');
      LexLessAt(a, b, n - 1);
    }
  }

  /** The ids of counters 1..size sort by filename exactly as the counters do, and no
      two of them coincide. */
  lemma IdsOrdered(size: nat, m: nat, n: nat)
    requires m < n <= size
    ensures LexLess(FormatId(|Decimal(size)|, m), FormatId(|Decimal(size)|, n))
    ensures FormatId(|Decimal(size)|, m) != FormatId(|Decimal(size)|, n)
  {
    IdWidth(size, m);
    IdWidth(size, n);
    ValueOrderIsLexOrder(FormatId(|Decimal(size)|, m), FormatId(|Decimal(size)|, n));
  }

  /** A list of 137 entries gets three-digit ids; the fifth is "005". */
  lemma IdExample()
    ensures Decimal(137) == "137"
    ensures FormatId(|Decimal(137)|, 5) == "005"
  {
    assert Decimal(13) == "13";
    assert Zeros(2) == "00";
  }

  /** The ordered file names of entries `i < j` sort by filename as the entries do. */
  lemma OrderedNames(size: nat, i: nat, j: nat, a: string, b: string)
    requires i < j < size
    ensures LexLess(FormatId(|Decimal(size)|, i + 1) + "_" + a + ".avsc", FormatId(|Decimal(size)|, j + 1) + "_" + b + ".avsc")
  {
    IdsOrdered(size, i + 1, j + 1);
    NamesFollowIds(FormatId(|Decimal(size)|, i + 1), FormatId(|Decimal(size)|, j + 1), a, b);
  }

  /** A file name sorts as its id does. */
  lemma NamesFollowIds(idA: string, idB: string, a: string, b: string)
    requires LexLess(idA, idB)
    ensures LexLess(idA + "_" + a + ".avsc", idB + "_" + b + ".avsc")
  {
    LexLessExtend(idA, idB, "_", "_");
    LexLessExtend(idA + "_", idB + "_", a, b);
    LexLessExtend(idA + "_" + a, idB + "_" + b, ".avsc", ".avsc");
  }

  /** Whatever follows two strings does not change which one sorts first. */
  lemma {:induction false} LexLessExtend(a: string, b: string, x: string, y: string)
    requires LexLess(a, b)
    ensures LexLess(a + x, b + y)
  {
    assert (a + x)[0] == a[0] && (b + y)[0] == b[0];
    if a[0] == b[0] && !(a[0] < b[0]) {
      LexLessExtend(a[1..], b[1..], x, y);
      assert (a + x)[1..] == a[1..] + x && (b + y)[1..] == b[1..] + y;
    }
  }
}
