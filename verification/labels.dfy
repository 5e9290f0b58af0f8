/** Python's `str(n)` for natural numbers, with the parser that undoes it. */
module Decimal {

  predicate IsDigit(c: char) {
    '0' <= c <= '9'
  }

  predicate AllDigits(r: string) {
    forall i :: 0 <= i < |r| ==> IsDigit(r[i])
  }

  function DigitChar(d: int): (c: char)
    requires 0 <= d < 10
    ensures IsDigit(c) && c as int - '0' as int == d
  {
    ('0' as int + d) as char
  }

  /** Decimal digits, most significant first, with no leading zero. */
  function NatToString(n: nat): (r: string)
    ensures |r| >= 1 && AllDigits(r)
    ensures n > 0 ==> r[0] != '0'
    decreases n
  {
    if n < 10 then [DigitChar(n)]
    else NatToString(n / 10) + [DigitChar(n % 10)]
  }

  /** The value a string of decimal digits denotes. */
  function ParseDecimal(r: string): nat
    requires AllDigits(r)
    decreases |r|
  {
    if r == [] then 0
    else 10 * ParseDecimal(r[..|r| - 1]) + (r[|r| - 1] as int - '0' as int)
  }

  lemma {:induction false} ParseNatToString(n: nat)
    ensures ParseDecimal(NatToString(n)) == n
    decreases n
  {
    var r := NatToString(n);
    if n < 10 {
      assert r[..|r| - 1] == [];
    } else {
      assert r[..|r| - 1] == NatToString(n / 10);
      ParseNatToString(n / 10);
    }
  }

  /** Distinct numbers print differently. */
  lemma NatToStringInjective(a: nat, b: nat)
    ensures NatToString(a) == NatToString(b) ==> a == b
  {
    ParseNatToString(a);
    ParseNatToString(b);
  }
}

/** The label encoder inside `distances_to_ab`: the `i`-th new group is named by
    letter `i % 26`, followed by the decimal `i / 26` once the alphabet is used up. */
module Labels {
  import Decimal

  /** `string.ascii_uppercase`. */
  const AsciiUppercase: string := "ABCDEFGHIJKLMNOPQRSTUVWXYZ"

  /** Letter `a` of the alphabet is the character `'A' + a`. */
  lemma AlphabetCodes(a: int)
    requires 0 <= a < 26
    ensures AsciiUppercase[a] as int == 'A' as int + a
  {
  }

  function Label(i: nat): (r: string)
    ensures |r| >= 1 && r[0] == AsciiUppercase[i % 26]
    ensures |r| == 1 <==> i < 26
    ensures Decimal.AllDigits(r[1..])
  {
    if i >= 26 then [AsciiUppercase[i % 26]] + Decimal.NatToString(i / 26)
    else [AsciiUppercase[i]]
  }

  /** Shape of every label: an upper-case letter followed by decimal digits. */
  predicate IsLabel(r: string) {
    |r| >= 1 && 'A' <= r[0] <= 'Z' && Decimal.AllDigits(r[1..])
  }

  /** Reads the group counter back off a label. */
  function LabelIndex(r: string): nat
    requires IsLabel(r)
  {
    (r[0] as int - 'A' as int) + 26 * Decimal.ParseDecimal(r[1..])
  }

  /** The letter of a label decodes to the counter modulo 26. */
  lemma LetterRoundTrip(i: nat)
    ensures 'A' <= Label(i)[0] <= 'Z'
    ensures Label(i)[0] as int - 'A' as int == i % 26
  {
    AlphabetCodes(i % 26);
  }

  /** The suffix of a label decodes to the counter divided by 26. */
  lemma SuffixRoundTrip(i: nat)
    ensures Decimal.AllDigits(Label(i)[1..])
    ensures Decimal.ParseDecimal(Label(i)[1..]) == i / 26
  {
    var r := Label(i);
    if i >= 26 {
      assert r[1..] == Decimal.NatToString(i / 26);
      Decimal.ParseNatToString(i / 26);
    } else {
      assert r[1..] == [];
    }
  }

  /** Decoding a label gives back the counter that produced it. */
  lemma LabelRoundTrip(i: nat)
    ensures IsLabel(Label(i)) && LabelIndex(Label(i)) == i
  {
    LetterRoundTrip(i);
    SuffixRoundTrip(i);
    assert i == i % 26 + 26 * (i / 26);
  }

  /** Distinct counters give distinct labels, so no group ever overwrites another. */
  lemma LabelInjective(i: nat, j: nat)
    ensures Label(i) == Label(j) ==> i == j
  {
    LabelRoundTrip(i);
    LabelRoundTrip(j);
  }

  /** The first 26 groups are named by a bare letter. */
  lemma LetterExamples()
    ensures Label(0) == "A" && Label(25) == "Z"
  {
  }

  /** The 27th group is `A1`, not `A0`, and the suffix counts passes through the alphabet. */
  lemma SuffixExamples()
    ensures Label(26) == "A1" && Label(27) == "B1" && Label(28) == "C1" && Label(29) == "D1"
    ensures Label(51) == "Z1" && Label(52) == "A2"
  {
    var one, two := Decimal.NatToString(1), Decimal.NatToString(2);
    assert one == "1" && two == "2";
    assert Label(26) == [AsciiUppercase[0]] + one;
    assert Label(27) == [AsciiUppercase[1]] + one;
    assert Label(28) == [AsciiUppercase[2]] + one;
    assert Label(29) == [AsciiUppercase[3]] + one;
    assert Label(51) == [AsciiUppercase[25]] + one;
    assert Label(52) == [AsciiUppercase[0]] + two;
  }
}
