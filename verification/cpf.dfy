/** The CPF (Brazilian individual taxpayer number) validator of the member
    form: strip every non-digit, demand exactly eleven digits, and compare the
    last two with the two modulo-11 check digits computed from the others. */
module Cpf {
  import opened Text

  /** `cpf.replace(/\D/g, '')`: the digits of `s`, in their original order. */
  function Digits(s: string): (r: string)
    ensures AllDigits(r)
    ensures |r| <= |s|
  {
    if s == [] then []
    else (if IsDigit(s[0]) then [s[0]] else []) + Digits(s[1..])
  }

  /** Stripping keeps every digit as often as it occurs and drops every
      other character. */
  lemma {:induction false} DigitsKeepsDigitCounts(s: string, c: char)
    ensures multiset(Digits(s))[c] == if IsDigit(c) then multiset(s)[c] else 0
    decreases |s|
  {
    if s != [] {
      assert s == [s[0]] + s[1..];
      DigitsKeepsDigitCounts(s[1..], c);
    }
  }

  /** Stripping distributes over concatenation: with the one-character case
      (keep a digit, drop anything else) this pins `Digits` down as the
      order-preserving filter. */
  lemma {:induction false} DigitsAppend(a: string, b: string)
    ensures Digits(a + b) == Digits(a) + Digits(b)
    decreases |a|
  {
    if a == [] {
      assert a + b == b;
    } else {
      assert (a + b)[0] == a[0];
      assert (a + b)[1..] == a[1..] + b;
      DigitsAppend(a[1..], b);
    }
  }

  /** A string that is already all digits is left as it is. */
  lemma {:induction false} DigitsOfDigitString(s: string)
    requires AllDigits(s)
    ensures Digits(s) == s
    decreases |s|
  {
    if s != [] {
      DigitsOfDigitString(s[1..]);
    }
  }

  /** Stripping twice is stripping once. */
  lemma DigitsIdempotent(s: string)
    ensures Digits(Digits(s)) == Digits(s)
  {
    DigitsOfDigitString(Digits(s));
  }

  /** `Σ_{i<n} d[i] * (top - i)`: the loops that build the weighted sums,
      weights falling from `top` by one per position. */
  function DescendingSum(d: seq<nat>, n: nat, top: int): (r: int)
    requires n <= |d|
    ensures n <= top + 1 ==> r >= 0
  {
    if n == 0 then 0
    else
      DescendingSum(d, n - 1, top) + d[n - 1] * (top - (n - 1))
  }

  /** `Σ_{i<n} d[i] * (base + i)`: weights rising from `base` by one per position. */
  function AscendingSum(d: seq<nat>, n: nat, base: nat): nat
    requires n <= |d|
  {
    if n == 0 then 0 else AscendingSum(d, n - 1, base) + d[n - 1] * (base + (n - 1))
  }

  /** `Σ_{i<n} d[i]`: the plain digit sum. */
  function Total(d: seq<nat>, n: nat): nat
    requires n <= |d|
  {
    if n == 0 then 0 else Total(d, n - 1) + d[n - 1]
  }

  /** A weight rising from `base` and one falling from `top` add up to
      `top + base` at every position, so the two weighted sums add up to
      `(top + base)` times the digit sum. */
  lemma {:induction false} DescendingPlusAscending(d: seq<nat>, n: nat, top: int, base: nat)
    requires n <= |d|
    ensures DescendingSum(d, n, top) + AscendingSum(d, n, base) == (top + base) * Total(d, n)
  {
    if n != 0 {
      var k := n - 1;
      DescendingPlusAscending(d, k, top, base);
      assert d[k] * (top - k) + d[k] * (base + k) == (top + base) * d[k];
    }
  }

  /** `rev = 11 - (sum % 11)`, replaced by 0 when it is 10 or 11: always a
      single decimal digit, and 0 exactly when 11 divides `sum` or leaves 1. */
  function CheckDigit(sum: nat): (rev: nat)
    ensures rev <= 9
    ensures rev == 0 <==> sum % 11 <= 1
    ensures rev != 0 ==> (sum + rev) % 11 == 0
  {
    var rev := 11 - sum % 11;
    if rev == 10 || rev == 11 then 0 else rev
  }

  /** When two sums add up to a multiple of 11, the check digit of one is the
      other's remainder modulo 11, then modulo 10. */
  lemma CheckDigitOfComplement(x: nat, y: nat)
    requires (x + y) % 11 == 0
    ensures CheckDigit(x) == y % 11 % 10
  {
  }

  /** The first check digit: weights 10 .. 2 over the first nine digits. */
  function FirstCheckDigit(d: seq<nat>): (rev: nat)
    requires |d| >= 9
    ensures rev <= 9
  {
    CheckDigit(DescendingSum(d, 9, 10))
  }

  /** The second check digit: weights 11 .. 2 over the first ten digits. */
  function SecondCheckDigit(d: seq<nat>): (rev: nat)
    requires |d| >= 10
    ensures rev <= 9
  {
    CheckDigit(DescendingSum(d, 10, 11))
  }

  /** The usual written form of the CPF rule, stated independently of the
      validator: eleven digits, the tenth equal to `Σ_{i<9} d[i]*(i+1)`
      modulo 11 then modulo 10, the eleventh equal to `Σ_{i<10} d[i]*i`
      modulo 11 then modulo 10. */
  predicate IsValidCpfNumber(s: string) {
    && |s| == 11
    && AllDigits(s)
    && var d := DigitValues(s);
    && d[9] == AscendingSum(d, 9, 1) % 11 % 10
    && d[10] == AscendingSum(d, 10, 0) % 11 % 10
  }

  /** The validator's check digits agree with the written rule: weight
      `10 - i` and weight `i + 1` (or `11 - i` and `i`) add up to 11. */
  lemma {:induction false} CheckDigitsAgree(d: seq<nat>)
    requires |d| >= 10
    ensures FirstCheckDigit(d) == AscendingSum(d, 9, 1) % 11 % 10
    ensures SecondCheckDigit(d) == AscendingSum(d, 10, 0) % 11 % 10
  {
    DescendingPlusAscending(d, 9, 10, 1);
    assert (11 * Total(d, 9)) % 11 == 0;
    CheckDigitOfComplement(DescendingSum(d, 9, 10), AscendingSum(d, 9, 1));
    DescendingPlusAscending(d, 10, 11, 0);
    assert (11 * Total(d, 10)) % 11 == 0;
    CheckDigitOfComplement(DescendingSum(d, 10, 11), AscendingSum(d, 10, 0));
  }

  /** The checks `validateCPF` makes on the stripped string: exactly eleven
      digits, then each computed check digit equal to the digit in its place
      (the tenth first; a mismatch there rejects without looking further). */
  function CheckDigitsMatch(s: string): (ok: bool)
    ensures ok ==> |s| == 11
    ensures ok <==> IsValidCpfNumber(s)
  {
    if !(|s| == 11 && AllDigits(s)) then false
    else
      var d := DigitValues(s);
      CheckDigitsAgree(d);
      if FirstCheckDigit(d) != d[9] then false
      else if SecondCheckDigit(d) != d[10] then false
      else true
  }

  /** `validateCPF`: strip the non-digits, then check the digits that remain. */
  function ValidateCpf(cpf: string): (ok: bool)
    ensures ok ==> |Digits(cpf)| == 11
    ensures ok <==> IsValidCpfNumber(Digits(cpf))
  {
    CheckDigitsMatch(Digits(cpf))
  }

  /** Eleven digits are required: any other count after stripping is rejected. */
  lemma WrongLengthRejected(cpf: string)
    requires |Digits(cpf)| != 11
    ensures !ValidateCpf(cpf)
  {
  }

  /** A mismatch in the tenth digit is a rejection, whatever the eleventh. */
  lemma FirstMismatchRejected(cpf: string)
    requires |Digits(cpf)| == 11
    requires FirstCheckDigit(DigitValues(Digits(cpf))) != DigitValue(Digits(cpf)[9])
    ensures !ValidateCpf(cpf)
  {
  }

  /** A mismatch in the eleventh digit is a rejection. */
  lemma SecondMismatchRejected(cpf: string)
    requires |Digits(cpf)| == 11
    requires SecondCheckDigit(DigitValues(Digits(cpf))) != DigitValue(Digits(cpf)[10])
    ensures !ValidateCpf(cpf)
  {
  }

  /** The validator agrees with the written rule applied to the stripped digits. */
  lemma AcceptedExactlyWhenValidNumber(cpf: string)
    ensures ValidateCpf(cpf) <==> IsValidCpfNumber(Digits(cpf))
  {
  }

  /** Eleven digits whose two check digits both match are accepted. */
  lemma BothMatchAccepted(cpf: string)
    requires |Digits(cpf)| == 11
    requires FirstCheckDigit(DigitValues(Digits(cpf))) == DigitValue(Digits(cpf)[9])
    requires SecondCheckDigit(DigitValues(Digits(cpf))) == DigitValue(Digits(cpf)[10])
    ensures ValidateCpf(cpf)
  {
  }

  /** The verdict depends only on the digits: a formatted number and its bare
      digits are judged alike. */
  lemma VerdictOnDigitsOnly(cpf: string)
    ensures ValidateCpf(cpf) == ValidateCpf(Digits(cpf))
  {
    DigitsIdempotent(cpf);
  }

  /** The usual written layout NNN.NNN.NNN-NN is judged exactly as the bare
      digits are. */
  lemma UsualPunctuationIgnored(p: string, q: string, r: string, t: string)
    ensures ValidateCpf(p + "." + q + "." + r + "-" + t) == ValidateCpf(p + q + r + t)
  {
    var dot, dash := ".", "-";
    DigitsOfSeparators(dot);
    DigitsOfSeparators(dash);
    DigitsAppend(p, dot);
    DigitsAppend(p + dot, q);
    DigitsAppend(p + dot + q, dot);
    DigitsAppend(p + dot + q + dot, r);
    DigitsAppend(p + dot + q + dot + r, dash);
    DigitsAppend(p + dot + q + dot + r + dash, t);
    DigitsAppend(p, q);
    DigitsAppend(p + q, r);
    DigitsAppend(p + q + r, t);
    assert Digits(p + dot + q + dot + r + dash + t) == Digits(p + q + r + t);
  }

  /** A string without digits strips to nothing. */
  lemma {:induction false} DigitsOfSeparators(sep: string)
    requires forall i :: 0 <= i < |sep| ==> !IsDigit(sep[i])
    ensures Digits(sep) == []
    decreases |sep|
  {
    if sep != [] {
      DigitsOfSeparators(sep[1..]);
    }
  }

  /** Inserting separators (dots, dashes, spaces, anything but a digit)
      anywhere in the input never changes the verdict. */
  lemma {:induction false} SeparatorsIgnored(a: string, sep: string, b: string)
    requires forall i :: 0 <= i < |sep| ==> !IsDigit(sep[i])
    ensures ValidateCpf(a + sep + b) == ValidateCpf(a + b)
  {
    DigitsOfSeparators(sep);
    DigitsAppend(a + sep, b);
    DigitsAppend(a, sep);
    DigitsAppend(a, b);
    assert Digits(a + sep + b) == Digits(a + b);
  }
}

module CpfExamples {
  import opened Text
  import opened Cpf

  /** Σ_{i<n} (base + i): the weights alone. */
  function WeightTotal(n: nat, base: nat): nat {
    if n == 0 then 0 else WeightTotal(n - 1, base) + (base + n - 1)
  }

  lemma {:induction false} ConstantAscendingSum(d: seq<nat>, k: nat, n: nat, base: nat)
    requires n <= |d|
    requires forall i :: 0 <= i < |d| ==> d[i] == k
    ensures AscendingSum(d, n, base) == k * WeightTotal(n, base)
  {
    if n > 0 {
      ConstantAscendingSum(d, k, n - 1, base);
    }
  }

  /** Repeated-digit numbers such as 111.111.111-11 are not rejected: all
      ten of them pass both check digits. */
  lemma RepeatedDigitsAccepted(c: char)
    requires IsDigit(c)
    ensures ValidateCpf(seq(11, _ => c))
  {
    var s := seq(11, _ => c);
    DigitsOfDigitString(s);
    var k := DigitValue(c);
    var d := DigitValues(s);
    ConstantAscendingSum(d, k, 9, 1);
    ConstantAscendingSum(d, k, 10, 0);
    assert WeightTotal(9, 1) == 45;
    assert WeightTotal(10, 0) == 45;
    assert k * 45 == 11 * (4 * k) + k;
    assert (k * 45) % 11 == k;
  }

  /** 52998224725 satisfies the written rule: 233 % 11 % 10 == 2 and 203 % 11 % 10 == 5. */
  lemma BareExampleIsValidNumber()
    ensures IsValidCpfNumber("52998224725")
  {
    var s := "52998224725";
    assert AllDigits(s);
    var d := DigitValues(s);
    assert d == [5, 2, 9, 9, 8, 2, 2, 4, 7, 2, 5];
    assert AscendingSum([5, 2, 9, 9, 8, 2, 2, 4, 7, 2, 5], 9, 1) == 233;
    assert AscendingSum(d, 9, 1) == 233;
    assert AscendingSum([5, 2, 9, 9, 8, 2, 2, 4, 7, 2, 5], 10, 0) == 203;
    assert AscendingSum(d, 10, 0) == 203;
  }

  /** The bare eleven digits 52998224725 are accepted. */
  lemma BareExampleAccepted()
    ensures ValidateCpf("52998224725")
  {
    BareExampleIsValidNumber();
    DigitsOfDigitString("52998224725");
    AcceptedExactlyWhenValidNumber("52998224725");
  }

  /** Any split of those digits into pieces is still the accepted number. */
  lemma PiecesOfBareExampleAccepted(p: string, q: string, r: string, t: string)
    requires p + q + r + t == "52998224725"
    ensures ValidateCpf(p + q + r + t)
  {
    BareExampleAccepted();
  }

  /** The same number written with its usual punctuation, 529.982.247-25, is accepted. */
  lemma FormattedExampleAccepted(cpf: string)
    requires cpf == "529.982.247-25"
    ensures ValidateCpf(cpf)
  {
    var p, q, r, t := "529", "982", "247", "25";
    PiecesOfBareExampleAccepted(p, q, r, t);
    UsualPunctuationIgnored(p, q, r, t);
    assert p + "." + q + "." + r + "-" + t == cpf;
  }

  /** 111.111.111-11 is accepted: the validator has no rule against
      repeated digits. */
  lemma RepeatedOnesAccepted(cpf: string)
    requires cpf == "111.111.111-11"
    ensures ValidateCpf(cpf)
  {
    var p, q, r, t := "111", "111", "111", "11";
    assert p + q + r + t == seq(11, _ => '1');
    RepeatedDigitsAccepted('1');
    UsualPunctuationIgnored(p, q, r, t);
    assert p + "." + q + "." + r + "-" + t == cpf;
  }

  /** Changing the last digit of that number to 4 makes it invalid. */
  lemma AlteredCheckDigitRejected()
    ensures !ValidateCpf("52998224724")
  {
    var s := "52998224724";
    assert !IsValidCpfNumber(s) by {
      assert DigitValues(s) == [5, 2, 9, 9, 8, 2, 2, 4, 7, 2, 4];
      assert AscendingSum([5, 2, 9, 9, 8, 2, 2, 4, 7, 2, 4], 10, 0) == 203;
    }
    DigitsOfDigitString(s);
  }
}
