/**
 Entry numbers of manual journal entries (src/modules/accounting/accounting.service.ts): JE, the year
 and a sequence number padded to six digits, and the text order by which the last one is found.
 */
module EntryNumbers {
  import opened Outcomes

  function Digit(d: nat): char
    requires d < 10
  {
    '0' + d as char
  }

  function Digits(n: nat): string {
    if n < 10 then [Digit(n)] else Digits(n / 10) + [Digit(n % 10)]
  }

  /** `padStart(width, '0')`. */
  function PadStart(s: string, width: nat): string
    decreases width - |s|
  {
    if |s| >= width then s else PadStart("0" + s, width)
  }

  function Prefix(year: nat): string {
    "JE-" + Digits(year) + "-"
  }

  function EntryNumber(year: nat, sequence: nat): string {
    Prefix(year) + PadStart(Digits(sequence), 6)
  }

  predicate IsDigit(c: char) {
    '0' <= c <= '9'
  }

  /** `parseInt` of a text: its leading digits, if any. */
  function ParseInt(s: string, value: nat := 0, any: bool := false): Option<nat> {
    if s == [] || !IsDigit(s[0]) then (if any then Some(value) else None)
    else ParseInt(s[1..], value * 10 + (s[0] - '0') as nat, true)
  }

  /** The third part of an entry number between dashes, parsed; only called for numbers with the prefix of a year. */
  function SequenceOf(year: nat, entryNumber: string): Option<nat> {
    if |Prefix(year)| <= |entryNumber| then ParseInt(entryNumber[|Prefix(year)|..]) else None
  }

  /** Text order. */
  predicate Before(a: string, b: string) {
    if b == [] then false
    else if a == [] then true
    else a[0] < b[0] || (a[0] == b[0] && Before(a[1..], b[1..]))
  }

  // ---- Fixed width --------------------------------------------------------------------

  function Power(k: nat): nat {
    if k == 0 then 1 else 10 * Power(k - 1)
  }

  /** The last k digits of a number. */
  function Fixed(n: nat, k: nat): (s: string)
    ensures |s| == k && forall i :: 0 <= i < k ==> IsDigit(s[i])
  {
    if k == 0 then [] else Fixed(n / 10, k - 1) + [Digit(n % 10)]
  }

  lemma {:induction false} ZeroesBefore(n: nat, k: nat)
    requires n < Power(k)
    ensures "0" + Fixed(n, k) == Fixed(n, k + 1)
  {
    if k == 0 {
      assert Fixed(n, 1) == Fixed(0, 0) + ['0'];
    } else {
      ZeroesBefore(n / 10, k - 1);
      assert "0" + (Fixed(n / 10, k - 1) + [Digit(n % 10)]) == ("0" + Fixed(n / 10, k - 1)) + [Digit(n % 10)];
    }
  }

  lemma {:induction false} FixedIsDigits(n: nat)
    ensures var k := |Digits(n)|;
      k >= 1 && n < Power(k) && Digits(n) == Fixed(n, k) && (k > 1 ==> n >= Power(k - 1))
  {
    if n < 10 {
      assert Power(1) == 10 * Power(0);
      assert Fixed(n, 1) == Fixed(0, 0) + [Digit(n)];
    } else {
      FixedIsDigits(n / 10);
      var k := |Digits(n / 10)|;
      assert Power(k + 1) == 10 * Power(k) && Power(k) == 10 * Power(k - 1);
      assert Fixed(n, k + 1) == Fixed(n / 10, k) + [Digit(n % 10)];
    }
  }

  lemma {:induction false} PaddedIsFixed(n: nat, k: nat, width: nat)
    requires n < Power(k) && k <= width
    ensures PadStart(Fixed(n, k), width) == Fixed(n, width) && n < Power(width)
    decreases width - k
  {
    if k < width {
      assert Power(k + 1) == 10 * Power(k);
      ZeroesBefore(n, k);
      PaddedIsFixed(n, k + 1, width);
    }
  }

  lemma {:induction false} PowerGrows(j: nat, k: nat)
    requires j <= k
    ensures Power(j) <= Power(k)
    decreases k - j
  {
    if j < k {
      PowerGrows(j, k - 1);
    }
  }

  lemma SixDigits()
    ensures Power(6) == 1000000 && Power(7) == 10000000 && Power(1) == 10
  {
    assert Power(1) == 10 && Power(2) == 100 && Power(3) == 1000;
    assert Power(4) == 10000 && Power(5) == 100000;
  }

  /** Up to 999999 the padded number has six digits, and from then on at least seven. */
  lemma PaddedSequence(n: nat)
    ensures n < 1000000 ==> PadStart(Digits(n), 6) == Fixed(n, 6)
    ensures n >= 1000000 ==> PadStart(Digits(n), 6) == Digits(n)
  {
    FixedIsDigits(n);
    SixDigits();
    var k := |Digits(n)|;
    if n < 1000000 {
      if k > 6 {
        PowerGrows(6, k - 1);
      }
      PaddedIsFixed(n, k, 6);
    } else {
      if k < 6 {
        PowerGrows(k, 6);
      }
    }
  }

  // ---- Order --------------------------------------------------------------------------

  lemma {:induction false} BeforeExtends(a: string, b: string, c: char, d: char)
    requires |a| == |b|
    ensures Before(a, b) ==> Before(a + [c], b + [d])
    ensures a == b && c < d ==> Before(a + [c], b + [d])
  {
    if a != [] {
      BeforeExtends(a[1..], b[1..], c, d);
      assert (a + [c])[1..] == a[1..] + [c] && (b + [d])[1..] == b[1..] + [d];
    }
  }

  /** Zero-padded text order is numeric order. */
  lemma {:induction false} FixedOrder(m: nat, n: nat, k: nat)
    requires m < n < Power(k)
    ensures Before(Fixed(m, k), Fixed(n, k))
  {
    if k > 0 {
      if m / 10 < n / 10 {
        FixedOrder(m / 10, n / 10, k - 1);
      }
      BeforeExtends(Fixed(m / 10, k - 1), Fixed(n / 10, k - 1), Digit(m % 10), Digit(n % 10));
    }
  }

  lemma {:induction false} PrefixOrder(prefix: string, a: string, b: string)
    ensures Before(prefix + a, prefix + b) == Before(a, b)
  {
    if prefix == [] {
      assert prefix + a == a && prefix + b == b;
    } else {
      PrefixOrder(prefix[1..], a, b);
      assert (prefix + a)[1..] == prefix[1..] + a && (prefix + b)[1..] == prefix[1..] + b;
    }
  }

  lemma {:induction false} BeforeIsStrict(a: string, b: string)
    ensures !(Before(a, b) && Before(b, a))
    ensures Before(a, b) ==> a != b
  {
    if a != [] && b != [] && a[0] == b[0] {
      BeforeIsStrict(a[1..], b[1..]);
    }
  }

  // ---- Parsing ------------------------------------------------------------------------

  lemma {:induction false} ParseAppends(s: string, d: nat, value: nat, any: bool)
    requires d < 10 && forall i :: 0 <= i < |s| ==> IsDigit(s[i])
    requires ParseInt(s, value, any).Some? || s == []
    ensures ParseInt(s + [Digit(d)], value, any)
         == Some((if s == [] then value else ParseInt(s, value, any).value) * 10 + d)
  {
    if s == [] {
      assert s + [Digit(d)] == [Digit(d)];
      assert [Digit(d)][1..] == [];
    } else {
      var value' := value * 10 + (s[0] - '0') as nat;
      assert (s + [Digit(d)])[1..] == s[1..] + [Digit(d)];
      ParseAppends(s[1..], d, value', true);
    }
  }

  lemma {:induction false} ParseFixed(n: nat, k: nat)
    requires n < Power(k) && k > 0
    ensures ParseInt(Fixed(n, k)) == Some(n)
  {
    if k > 1 {
      ParseFixed(n / 10, k - 1);
    }
    ParseAppends(Fixed(n / 10, k - 1), n % 10, 0, false);
  }

  /** Parsing undoes the numbering. */
  lemma SequenceRoundTrip(year: nat, n: nat)
    ensures SequenceOf(year, EntryNumber(year, n)) == Some(n)
  {
    var number := EntryNumber(year, n);
    assert number[|Prefix(year)|..] == PadStart(Digits(n), 6);
    PaddedSequence(n);
    SixDigits();
    FixedIsDigits(n);
    if n < 1000000 {
      ParseFixed(n, 6);
    } else {
      ParseFixed(n, |Digits(n)|);
    }
  }

  /** Numbers of one year are in text order as long as they have six digits. */
  lemma NumbersInOrder(year: nat, m: nat, n: nat)
    requires m < n < 1000000
    ensures Before(EntryNumber(year, m), EntryNumber(year, n))
  {
    SixDigits();
    PaddedSequence(m);
    PaddedSequence(n);
    FixedOrder(m, n, 6);
    PrefixOrder(Prefix(year), Fixed(m, 6), Fixed(n, 6));
  }

  /** The millionth number of a year comes before the one that precedes it. */
  lemma MillionthIsBefore(year: nat)
    ensures Before(EntryNumber(year, 1000000), EntryNumber(year, 999999))
  {
    PaddedSequence(999999);
    PaddedSequence(1000000);
    MillionDigits();
    PrefixOrder(Prefix(year), Digits(1000000), Fixed(999999, 6));
  }

  lemma MillionDigits()
    ensures Digits(1000000)[0] == '1' && Fixed(999999, 6)[0] == '9'
  {
    assert Digits(10)[0] == '1' && Digits(100)[0] == '1' && Digits(1000)[0] == '1';
    assert Digits(10000)[0] == '1' && Digits(100000)[0] == '1';
    assert Fixed(9, 1)[0] == '9' && Fixed(99, 2)[0] == '9' && Fixed(999, 3)[0] == '9';
    assert Fixed(9999, 4)[0] == '9' && Fixed(99999, 5)[0] == '9';
  }

  /** Different sequence numbers give different texts. */
  lemma NumbersDiffer(year: nat, m: nat, n: nat)
    requires m != n
    ensures EntryNumber(year, m) != EntryNumber(year, n)
  {
    SequenceRoundTrip(year, m);
    SequenceRoundTrip(year, n);
  }

  /** A decimal numeral for n, without leading zeroes when it is wider than `width`. */
  predicate IsNumeral(s: string, n: nat, width: nat) {
    && |s| >= width && (forall i :: 0 <= i < |s| ==> IsDigit(s[i])) && ParseInt(s) == Some(n)
    && (|s| > width && |s| > 1 ==> s[0] != '0')
  }

  /** An entry number reads JE, the year and the sequence number in at least six digits, between dashes. */
  lemma NumberReads(year: nat, n: nat)
    ensures exists y, sequence ::
      EntryNumber(year, n) == "JE-" + y + "-" + sequence && IsNumeral(y, year, 1) && IsNumeral(sequence, n, 6)
  {
    SixDigits();
    PaddedSequence(n);
    PlainNumeral(year);
    PlainNumeral(n);
    if n < 1000000 {
      ParseFixed(n, 6);
    } else {
      FixedIsDigits(n);
      if |Digits(n)| < 6 {
        PowerGrows(|Digits(n)|, 6);
      }
    }
    var sequence := PadStart(Digits(n), 6);
    assert EntryNumber(year, n) == "JE-" + Digits(year) + "-" + sequence;
    assert IsNumeral(Digits(year), year, 1) && IsNumeral(sequence, n, 6);
  }

  lemma PlainNumeral(n: nat)
    ensures IsNumeral(Digits(n), n, 1)
  {
    FixedIsDigits(n);
    DigitsAreDigits(n);
    ParseFixed(n, |Digits(n)|);
    NoLeadingZero(n);
  }

  lemma {:induction false} NoLeadingZero(n: nat)
    ensures |Digits(n)| > 0 && (n > 0 ==> Digits(n)[0] != '0') && (n == 0 ==> Digits(n) == "0")
  {
    if n >= 10 {
      NoLeadingZero(n / 10);
    }
  }

  // ---- Prefixes -----------------------------------------------------------------------

  lemma {:induction false} DigitsAreDigits(n: nat)
    ensures |Digits(n)| > 0 && forall i :: 0 <= i < |Digits(n)| ==> IsDigit(Digits(n)[i])
  {
    if n >= 10 {
      DigitsAreDigits(n / 10);
    }
  }

  lemma DigitsDiffer(m: nat, n: nat)
    requires m != n
    ensures Digits(m) != Digits(n)
  {
    FixedIsDigits(m);
    FixedIsDigits(n);
    if Digits(m) == Digits(n) {
      ParseFixed(m, |Digits(m)|);
      ParseFixed(n, |Digits(n)|);
    }
  }

  /** A number of one year does not start with the prefix of another. */
  lemma PrefixesDiffer(year: nat, year': nat, tail: string)
    requires Prefix(year') <= Prefix(year) + tail
    ensures year == year'
  {
    DigitsAreDigits(year);
    DigitsAreDigits(year');
    var a, b, whole := Digits(year), Digits(year'), Prefix(year) + tail;
    assert forall i :: 0 <= i < |a| ==> whole[3 + i] == a[i];
    assert whole[3 + |a|] == '-';
    assert forall i :: 0 <= i < |b| ==> Prefix(year')[3 + i] == b[i];
    assert Prefix(year')[3 + |b|] == '-';
    assert |a| == |b|;
    assert a == b;
    if year != year' {
      DigitsDiffer(year, year');
    }
  }
}
