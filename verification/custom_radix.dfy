/**
  Positional numerals over a custom alphabet (pkg/codes/custom_radix.go), on 64-bit integers.

  An alphabet is a string of ASCII characters, so that its bytes are its characters. Numerals need
  at least two of them.
 */
module CustomRadix {
  import opened Wrappers
  import opened Bits

  const MIN_INT: int := -TWO_TO_THE_63

  predicate IsAscii(chars: string) {
    |chars| < TWO_TO_THE_63 && forall k | 0 <= k < |chars| :: chars[k] < '\U{80}'
  }

  predicate IsAlphabet(chars: string) {
    IsAscii(chars) && |chars| >= 2
  }

  /** The digits of a positive number, most significant first. */
  function Numeral(chars: string, n: nat): string
    requires IsAlphabet(chars)
    decreases n
  {
    if n == 0 then [] else Numeral(chars, n / |chars|) + [chars[n % |chars|]]
  }

  /**
    `Encode`; None where it does not return. That is the one number whose negation is itself,
    where the recursion never ends; the empty alphabet, which has no first character; and an
    alphabet of one character, where dividing by 1 never ends, except for 0.
   */
  function Encoded(chars: string, n: int): Option<string>
    requires IsAscii(chars)
  {
    if n == MIN_INT || |chars| == 0 || (|chars| == 1 && n != 0) then None
    else if n < 0 then Some("-" + Numeral(chars, -n))
    else if n == 0 then Some([chars[0]])
    else Some(Numeral(chars, n))
  }

  /** The digits of s read from the left into an accumulator that wraps around. */
  function Accumulate(chars: string, s: string, acc: int): Option<int>
    requires IsAscii(chars)
  {
    if s == [] then Some(acc)
    else
      var k := IndexOf(chars, s[0]);
      if k == |chars| then None else Accumulate(chars, s[1..], ToInt64(acc * |chars| + k))
  }

  /** `Decode`; None stands for its three errors. */
  function Decoded(chars: string, s: string): Option<int>
    requires IsAscii(chars)
  {
    if s == [] then None
    else if s[0] == '-' then
      if |s| == 1 then None
      else
        match Accumulate(chars, s[1..], 0)
        case None => None
        case Some(v) => Some(ToInt64(-v))
    else Accumulate(chars, s, 0)
  }

  method Encode(chars: string, num: int) returns (r: Option<string>)
    requires IsAscii(chars) && IsInt64(num)
    ensures r == Encoded(chars, num)
    decreases num < 0
  {
    if num < 0 {
      if ToInt64(-num) == num {
        return None;
      }
      var positive := Encode(chars, -num);
      if positive.None? {
        return None;
      }
      return Some("-" + positive.value);
    }
    if |chars| == 0 {
      return None; // out of range
    }
    if num == 0 {
      return Some([chars[0]]);
    }
    if |chars| == 1 {
      return None; // the loop divides by 1 for ever
    }
    var result: string := [];
    var base := |chars|;
    var rest := num;
    while rest > 0
      invariant 0 <= rest <= num
      invariant Numeral(chars, rest) + result == Numeral(chars, num)
    {
      ghost var q, k := NumeralStep(chars, rest);
      assert Numeral(chars, rest) + result == Numeral(chars, q) + ([chars[k]] + result);
      var remainder := rest % base;
      result := [chars[remainder]] + result;
      rest := rest / base;
    }
    assert Numeral(chars, 0) + result == result;
    return Some(result);
  }

  datatype Fault = Empty | LoneMinus | UnknownChar(c: char)

  /** The error of `Decode`: what is wrong with the text, the first unknown character if several are. */
  function FaultOf(chars: string, s: string): Option<Fault> {
    if s == "" then Some(Empty)
    else if s == "-" then Some(LoneMinus)
    else FirstUnknown(chars, if s[0] == '-' then s[1..] else s)
  }

  function FirstUnknown(chars: string, digits: string): Option<Fault> {
    if digits == [] then None
    else if digits[0] !in chars then Some(UnknownChar(digits[0]))
    else FirstUnknown(chars, digits[1..])
  }

  lemma MissingIsUnknown(chars: string, c: char)
    ensures IndexOf(chars, c) == |chars| <==> c !in chars
  {
    if c in chars {
      var j :| 0 <= j < |chars| && chars[j] == c;
    }
  }

  /** Decoding fails exactly on a text with a fault. */
  lemma DecodeFailsExactly(chars: string, s: string)
    requires IsAscii(chars)
    ensures Decoded(chars, s).None? <==> FaultOf(chars, s).Some?
  {
    if s != "" && s != "-" {
      AccumulateFailsExactly(chars, if s[0] == '-' then s[1..] else s, 0);
    }
  }

  /** Which error it is. */
  lemma FaultsExactly(chars: string, s: string)
    ensures s == "" <==> FaultOf(chars, s) == Some(Empty)
    ensures s == "-" <==> FaultOf(chars, s) == Some(LoneMinus)
    ensures forall c :: FaultOf(chars, s) == Some(UnknownChar(c)) ==>
      s != "" && s != "-" &&
      var digits := if s[0] == '-' then s[1..] else s;
      exists i | 0 <= i < |digits| :: digits[i] == c && c !in chars && forall j | 0 <= j < i :: digits[j] in chars
  {
    if s != "" && s != "-" {
      FirstUnknownExactly(chars, if s[0] == '-' then s[1..] else s);
    }
  }

  lemma {:induction false} FirstUnknownExactly(chars: string, digits: string)
    ensures match FirstUnknown(chars, digits)
            case None => forall j | 0 <= j < |digits| :: digits[j] in chars
            case Some(f) =>
              f.UnknownChar? && exists i | 0 <= i < |digits| ::
                digits[i] == f.c && f.c !in chars && forall j | 0 <= j < i :: digits[j] in chars
  {
    if digits != [] && digits[0] in chars {
      FirstUnknownExactly(chars, digits[1..]);
      var f := FirstUnknown(chars, digits[1..]);
      if f.Some? {
        var i :| 0 <= i < |digits[1..]| && digits[1..][i] == f.value.c && f.value.c !in chars
                 && forall j | 0 <= j < i :: digits[1..][j] in chars;
        assert digits[i + 1] == f.value.c;
        forall j | 0 <= j < i + 1 ensures digits[j] in chars {
          if j > 0 {
            assert digits[1..][j - 1] in chars;
          }
        }
      } else {
        forall j | 0 <= j < |digits| ensures digits[j] in chars {
          if j > 0 {
            assert digits[1..][j - 1] in chars;
          }
        }
      }
    }
  }

  lemma {:induction false} AccumulateFailsExactly(chars: string, digits: string, acc: int)
    requires IsAscii(chars)
    ensures Accumulate(chars, digits, acc).None? <==> FirstUnknown(chars, digits).Some?
  {
    if digits != [] {
      var k := IndexOf(chars, digits[0]);
      MissingIsUnknown(chars, digits[0]);
      if k < |chars| {
        AccumulateFailsExactly(chars, digits[1..], ToInt64(acc * |chars| + k));
      }
    }
  }

  method Decode(chars: string, s: string) returns (r: Option<int>, error: Option<Fault>)
    requires IsAscii(chars)
    ensures r == Decoded(chars, s) && error == FaultOf(chars, s)
  {
    if s == "" {
      return None, Some(Empty);
    }
    var neg, digits := false, s;
    if s[0] == '-' {
      if |s| == 1 {
        assert s == "-";
        return None, Some(LoneMinus);
      }
      neg, digits := true, s[1..];
    }
    var base, result := |chars|, 0;
    for i := 0 to |digits|
      invariant Accumulate(chars, digits, 0) == Accumulate(chars, digits[i..], result)
      invariant FirstUnknown(chars, digits) == FirstUnknown(chars, digits[i..])
    {
      var index := IndexOf(chars, digits[i]);
      MissingIsUnknown(chars, digits[i]);
      assert digits[i..][0] == digits[i] && digits[i..][1..] == digits[i + 1..];
      if index == |chars| {
        return None, Some(UnknownChar(digits[i]));
      }
      result := ToInt64(result * base + index);
    }
    if neg {
      result := ToInt64(-result);
    }
    return Some(result), None;
  }

  // ---------------------------------------------------------------- round trips

  ghost predicate Distinct(chars: string) {
    forall i, j | 0 <= i < j < |chars| :: chars[i] != chars[j]
  }

  /** The value of a numeral on unbounded integers; None when a character is not in the alphabet. */
  function ValueOf(chars: string, s: string): Option<nat>
    requires IsAlphabet(chars)
  {
    if s == [] then Some(0)
    else
      var k := IndexOf(chars, s[|s| - 1]);
      match ValueOf(chars, s[..|s| - 1])
      case None => None
      case Some(v) => if k == |chars| then None else Some(v * |chars| + k)
  }

  lemma {:induction false} ValueAppend(chars: string, s: string, c: char)
    requires IsAlphabet(chars)
    ensures ValueOf(chars, s + [c]) ==
            match ValueOf(chars, s)
            case None => None
            case Some(v) => if IndexOf(chars, c) == |chars| then None else Some(v * |chars| + IndexOf(chars, c))
  {
    assert (s + [c])[..|s + [c]| - 1] == s;
  }

  /** Multiplying and adding after a wrap-around wraps to the same register as before it. */
  lemma WrapOfDigit(v: int, b: int, k: int)
    ensures ToInt64(ToInt64(v) * b + k) == ToInt64(v * b + k)
  {
    var e := WrapIsMultiple(v, 0);
    Pow2Values();
    assert Pow2(0) == 1;
    assert ToInt64(v) * b == v * b + (e * b) * TWO_TO_THE_64 by {
      assert ToInt64(v) == v + e * TWO_TO_THE_64;
      DistributeWrap(v, e, b);
    }
    AddMultiple(v * b + k + TWO_TO_THE_63, TWO_TO_THE_64, e * b);
  }

  lemma DistributeWrap(v: int, e: int, b: int)
    ensures (v + e * TWO_TO_THE_64) * b == v * b + (e * b) * TWO_TO_THE_64
  {
  }

  lemma {:induction false} AccumulateAppend(chars: string, s: string, c: char, acc: int)
    requires IsAlphabet(chars)
    ensures Accumulate(chars, s + [c], acc) ==
            match Accumulate(chars, s, acc)
            case None => None
            case Some(v) => if IndexOf(chars, c) == |chars| then None else Some(ToInt64(v * |chars| + IndexOf(chars, c)))
    decreases |s|
  {
    if s == [] {
      assert s + [c] == [c];
      assert [c][1..] == [];
    } else {
      assert (s + [c])[1..] == s[1..] + [c];
      if IndexOf(chars, s[0]) < |chars| {
        AccumulateAppend(chars, s[1..], c, ToInt64(acc * |chars| + IndexOf(chars, s[0])));
      }
    }
  }

  /** Accumulating with wrap-around gives the wrapped value: an overflow does not spoil the low bits. */
  lemma {:induction false} AccumulateIsWrappedValue(chars: string, s: string)
    requires IsAlphabet(chars)
    ensures match ValueOf(chars, s)
            case None => Accumulate(chars, s, 0) == None
            case Some(v) => Accumulate(chars, s, 0) == Some(ToInt64(v))
    decreases |s|
  {
    if s != [] {
      var front, last := s[..|s| - 1], s[|s| - 1];
      assert s == front + [last];
      AccumulateIsWrappedValue(chars, front);
      AccumulateAppend(chars, front, last, 0);
      ValueAppend(chars, front, last);
      if ValueOf(chars, front).Some? {
        WrapOfDigit(ValueOf(chars, front).value, |chars|, IndexOf(chars, last));
      }
    }
  }

  lemma IndexInDistinct(chars: string, k: nat)
    requires Distinct(chars) && k < |chars|
    ensures IndexOf(chars, chars[k]) == k
  {
  }

  lemma NumeralStep(chars: string, n: nat) returns (q: nat, k: nat)
    requires IsAlphabet(chars) && n > 0
    ensures q < n && k < |chars| && n == q * |chars| + k
    ensures q == n / |chars| && k == n % |chars|
    ensures Numeral(chars, n) == Numeral(chars, q) + [chars[k]]
  {
    q, k := n / |chars|, n % |chars|;
    DivideBy(n, |chars|);
  }

  lemma DivideBy(n: nat, b: nat)
    requires n > 0 && b >= 2
    ensures 0 <= n / b < n && 0 <= n % b < b && n == n / b * b + n % b
  {
    if n / b >= n {
      MulGrows(n / b, b);
      assert n / b * b >= n / b * 2 by {
        MulGrows(n / b, b - 1);
      }
    }
  }

  lemma {:induction false} ValueOfNumeral(chars: string, n: nat)
    requires IsAlphabet(chars) && Distinct(chars)
    ensures ValueOf(chars, Numeral(chars, n)) == Some(n)
    ensures n > 0 ==> Numeral(chars, n) != [] && Numeral(chars, n)[0] in chars
    decreases n
  {
    if n > 0 {
      var q, k := NumeralStep(chars, n);
      ValueOfNumeral(chars, q);
      IndexInDistinct(chars, k);
      ValueAppend(chars, Numeral(chars, q), chars[k]);
    }
  }

  lemma {:induction false} NumeralHasNoLeadingZero(chars: string, n: nat)
    requires IsAlphabet(chars) && Distinct(chars) && n > 0
    ensures Numeral(chars, n) != [] && Numeral(chars, n)[0] != chars[0]
    decreases n
  {
    var q, k := NumeralStep(chars, n);
    if q > 0 {
      NumeralHasNoLeadingZero(chars, q);
    } else {
      assert Numeral(chars, 0) == [];
    }
  }

  lemma DecodePositive(chars: string, n: nat)
    requires IsAlphabet(chars) && Distinct(chars) && 0 < n < TWO_TO_THE_63
    ensures Accumulate(chars, Numeral(chars, n), 0) == Some(n)
  {
    ValueOfNumeral(chars, n);
    AccumulateIsWrappedValue(chars, Numeral(chars, n));
  }

  /** Decode undoes Encode on every number that Encode returns for. */
  lemma DecodeUndoesEncode(chars: string, n: int)
    requires IsAlphabet(chars) && Distinct(chars) && '-' !in chars && IsInt64(n)
    ensures Encoded(chars, n).Some? <==> n != MIN_INT
    ensures Encoded(chars, n).Some? ==> Decoded(chars, Encoded(chars, n).value) == Some(n)
  {
    if n == 0 {
      OneDigit(chars, 0);
      IndexInDistinct(chars, 0);
      assert chars[0] in chars;
    } else if n > 0 {
      DecodePositive(chars, n);
      ValueOfNumeral(chars, n);
    } else if n != MIN_INT {
      DecodePositive(chars, -n);
      ValueOfNumeral(chars, -n);
      assert ("-" + Numeral(chars, -n))[1..] == Numeral(chars, -n);
    }
  }

  ghost predicate RoundTrips(chars: string, n: int)
    requires IsAscii(chars)
  {
    n == MIN_INT || (Encoded(chars, n).Some? && Decoded(chars, Encoded(chars, n).value) == Some(n))
  }

  /** A one-digit number is decoded from its digit. */
  lemma OneDigit(chars: string, k: nat)
    requires IsAlphabet(chars) && k < |chars|
    ensures Encoded(chars, k) == Some([chars[k]])
    ensures chars[k] == '-' ==> Decoded(chars, [chars[k]]) == None
    ensures chars[k] != '-' ==> Decoded(chars, [chars[k]]) == Some(IndexOf(chars, chars[k]))
  {
    if k > 0 {
      var q, d := NumeralStep(chars, k);
      ModFromQuotient(k, |chars|, 0, k);
      assert q == 0 && d == k && Numeral(chars, 0) == [];
      assert Numeral(chars, k) == [chars[k]];
    }
    var s, i := [chars[k]], IndexOf(chars, chars[k]);
    assert i < |chars| && 0 * |chars| + i == i;
    assert s[1..] == [];
    assert Accumulate(chars, s[1..], ToInt64(i)) == Some(i);
    assert Accumulate(chars, s, 0) == Some(i);
  }

  /**
    Every int but the least makes the round trip exactly when the alphabet has at least two
    characters, they are distinct, and none of them is the minus sign.
   */
  lemma UsableAlphabets(chars: string)
    requires IsAscii(chars)
    ensures (forall n | IsInt64(n) :: RoundTrips(chars, n)) <==> |chars| >= 2 && Distinct(chars) && '-' !in chars
  {
    if |chars| < 2 {
      assert !RoundTrips(chars, 1);
    } else {
      UsableWithTwo(chars);
    }
  }

  lemma UsableWithTwo(chars: string)
    requires IsAlphabet(chars)
    ensures (forall n | IsInt64(n) :: RoundTrips(chars, n)) <==> Distinct(chars) && '-' !in chars
  {
    if Distinct(chars) && '-' !in chars {
      forall n | IsInt64(n) ensures RoundTrips(chars, n) {
        DecodeUndoesEncode(chars, n);
      }
    }
    if forall n | IsInt64(n) :: RoundTrips(chars, n) {
      forall k | 0 <= k < |chars| ensures chars[k] != '-' && IndexOf(chars, chars[k]) == k {
        OneDigit(chars, k);
        assert RoundTrips(chars, k);
      }
      forall i, j | 0 <= i < j < |chars| ensures chars[i] != chars[j] {
        assert IndexOf(chars, chars[i]) == i && IndexOf(chars, chars[j]) == j;
      }
    }
  }

  /** A numeral as Encode writes it: no leading zero, no "-0", and a magnitude that an int holds. */
  ghost predicate Canonical(chars: string, s: string)
    requires IsAlphabet(chars)
  {
    var digits := if s != [] && s[0] == '-' then s[1..] else s;
    && digits != []
    && ValueOf(chars, digits).Some? && ValueOf(chars, digits).value < TWO_TO_THE_63
    && (digits[0] == chars[0] ==> s == [chars[0]])
  }

  lemma NumeralOfDigit(chars: string, v: nat, k: nat)
    requires IsAlphabet(chars) && k < |chars| && v * |chars| + k > 0
    ensures Numeral(chars, v * |chars| + k) == Numeral(chars, v) + [chars[k]]
  {
    ModFromQuotient(v * |chars| + k, |chars|, v, k);
  }

  lemma {:induction false} NumeralOfValue(chars: string, s: string)
    requires IsAlphabet(chars) && ValueOf(chars, s).Some?
    requires s == [] || s[0] != chars[0]
    ensures Numeral(chars, ValueOf(chars, s).value) == s
    ensures s != [] ==> ValueOf(chars, s).value > 0
    decreases |s|
  {
    if s != [] {
      var front, last := s[..|s| - 1], s[|s| - 1];
      assert s == front + [last];
      ValueAppend(chars, front, last);
      NumeralOfValue(chars, front);
      var v, k := ValueOf(chars, front).value, IndexOf(chars, last);
      if front != [] {
        MulAtLeast(v, |chars|);
      }
      NumeralOfDigit(chars, v, k);
    }
  }

  lemma EncodedIsCanonical(chars: string, n: int)
    requires IsAlphabet(chars) && Distinct(chars) && '-' !in chars && IsInt64(n) && n != MIN_INT
    ensures Canonical(chars, Encoded(chars, n).value)
  {
    var s := Encoded(chars, n).value;
    if n == 0 {
      IndexInDistinct(chars, 0);
      assert chars[0] in chars;
      assert ValueOf(chars, []) == Some(0);
      assert s[..0] == [];
      assert ValueOf(chars, s) == Some(0);
    } else {
      var m: nat := if n < 0 then -n else n;
      ValueOfNumeral(chars, m);
      NumeralHasNoLeadingZero(chars, m);
      if n < 0 {
        assert s[1..] == Numeral(chars, m);
      }
    }
  }

  lemma CanonicalDecodes(chars: string, s: string)
    requires IsAlphabet(chars) && Distinct(chars) && '-' !in chars && Canonical(chars, s)
    ensures Decoded(chars, s).Some? && Encoded(chars, Decoded(chars, s).value) == Some(s)
  {
    if s == [chars[0]] {
      OneDigit(chars, 0);
      IndexInDistinct(chars, 0);
      assert chars[0] in chars;
    } else {
      var negative := s[0] == '-';
      var digits := if negative then s[1..] else s;
      AccumulateIsWrappedValue(chars, digits);
      NumeralOfValue(chars, digits);
      assert negative ==> s == "-" + digits;
    }
  }

  lemma DecodedIsInt64(chars: string, s: string)
    requires IsAlphabet(chars) && Decoded(chars, s).Some?
    ensures IsInt64(Decoded(chars, s).value)
  {
    AccumulateIsInt64(chars, s, 0);
    if s[0] == '-' {
      AccumulateIsInt64(chars, s[1..], 0);
    }
  }

  /** Encode undoes Decode on the canonical numerals in range, and on no other string. */
  lemma EncodeUndoesDecodeExactly(chars: string, s: string)
    requires IsAlphabet(chars) && Distinct(chars) && '-' !in chars
    ensures (Decoded(chars, s).Some? && Encoded(chars, Decoded(chars, s).value) == Some(s)) <==> Canonical(chars, s)
  {
    if Canonical(chars, s) {
      CanonicalDecodes(chars, s);
    }
    if Decoded(chars, s).Some? && Encoded(chars, Decoded(chars, s).value) == Some(s) {
      DecodedIsInt64(chars, s);
      EncodedIsCanonical(chars, Decoded(chars, s).value);
    }
  }

  lemma {:induction false} AccumulateIsInt64(chars: string, s: string, acc: int)
    requires IsAlphabet(chars) && IsInt64(acc)
    ensures Accumulate(chars, s, acc).Some? ==> IsInt64(Accumulate(chars, s, acc).value)
    decreases |s|
  {
    if s != [] && IndexOf(chars, s[0]) < |chars| {
      AccumulateIsInt64(chars, s[1..], ToInt64(acc * |chars| + IndexOf(chars, s[0])));
    }
  }

  /** No step of decoding a numeral in range overflows: every prefix is worth no more than the whole. */
  lemma {:induction false} PrefixesStayInRange(chars: string, s: string, k: nat)
    requires IsAlphabet(chars) && k <= |s| && ValueOf(chars, s).Some?
    ensures ValueOf(chars, s[..k]).Some? && ValueOf(chars, s[..k]).value <= ValueOf(chars, s).value
    decreases |s|
  {
    if k == |s| {
      assert s[..k] == s;
    } else {
      var front, last := s[..|s| - 1], s[|s| - 1];
      assert s == front + [last] && s[..k] == front[..k];
      ValueAppend(chars, front, last);
      PrefixesStayInRange(chars, front, k);
      var v := ValueOf(chars, front).value;
      if v > 0 {
        MulGrows(v, |chars|);
      }
    }
  }

  lemma MulGrows(v: nat, b: nat)
    requires v >= 1 && b >= 1
    ensures v * b >= v
  {
  }

  /** The most significant digit comes first, behind the sign. */
  lemma BinaryText()
    ensures Encoded("01", 4) == Some("100") && Encoded("01", -4) == Some("-100")
    ensures Decoded("01", "100") == Some(4)
  {
    var chars := "01";
    assert Numeral(chars, 0) == [];
    assert Numeral(chars, 1) == "1";
    assert Numeral(chars, 2) == "10";
    assert Numeral(chars, 4) == "100";
    assert Encoded(chars, -4) == Some("-" + Numeral(chars, 4));
    assert "-" + "100" == "-100";
    DecodeUndoesEncode(chars, 4);
  }
}
