/** Entry identifiers and their canonical text.
    The diary compares ids only after converting both sides with JavaScript's
    String(...), so the number 1 and the text "1" denote the same entry.
    IdVal keeps the representation a caller used; Canon is String(...). */
module EntryId {

  datatype Option<T> = None | Some(value: T)

  /** An id as a caller holds it: a (whole) number or a text. */
  datatype IdVal = Num(n: int) | Str(s: string)

  predicate IsDigit(c: char) {
    '0' <= c <= '9'
  }

  function DigitChar(d: int): (c: char)
    requires 0 <= d < 10
    ensures IsDigit(c)
  {
    (48 + d) as char
  }

  function DigitValue(c: char): (d: int)
    requires IsDigit(c)
    ensures 0 <= d < 10 && DigitChar(d) == c
  {
    c as int - 48
  }

  /** Decimal text of a natural number, most significant digit first. */
  function NatDigits(n: nat): (t: string)
    ensures |t| >= 1
    ensures forall i :: 0 <= i < |t| ==> IsDigit(t[i])
    ensures t[0] == '0' ==> n == 0
    decreases n
  {
    if n < 10 then [DigitChar(n)] else NatDigits(n / 10) + [DigitChar(n % 10)]
  }

  /** String(n) for a whole number n: an optional minus sign, then the digits. */
  function IntText(n: int): (t: string)
    ensures |t| >= 1
    ensures t[0] == '-' <==> n < 0
  {
    if n < 0 then "-" + NatDigits(-n) else NatDigits(n)
  }

  /** The text an id is compared by (JavaScript String(id)): a number
      becomes its decimal text, a text stays as it is. */
  function Canon(v: IdVal): (t: string)
    ensures v.Num? ==> IntValue(t) == Some(v.n)
    ensures v.Str? ==> t == v.s
  {
    match v
    case Num(n) => IntTextRoundTrip(n); IntText(n)
    case Str(s) => s
  }

  /** Id equality as the reducer decides it: String(a) === String(b). */
  predicate SameId(a: IdVal, b: IdVal)
  {
    Canon(a) == Canon(b)
  }

  /** Value of a non-empty string of decimal digits; None for anything else. */
  function DigitsValue(t: string): (r: Option<nat>)
    ensures r.Some? <==> |t| >= 1 && forall i :: 0 <= i < |t| ==> IsDigit(t[i])
  {
    if |t| == 0 || !IsDigit(t[|t| - 1]) then None
    else if |t| == 1 then Some(DigitValue(t[0]))
    else match DigitsValue(t[..|t| - 1])
      case None => None
      case Some(v) => Some(10 * v + DigitValue(t[|t| - 1]))
  }

  /** Reads a whole number from its text. IntValue(IntText(n)) == Some(n);
      it also accepts texts IntText never produces, such as "01". */
  function IntValue(t: string): Option<int> {
    if |t| >= 1 && t[0] == '-' then
      match DigitsValue(t[1..])
      case None => None
      case Some(v) => Some(-(v as int))
    else
      match DigitsValue(t)
      case None => None
      case Some(v) => Some(v)
  }

  /** The number an id denotes once compared as text, if its text is a number. */
  function IdNumber(v: IdVal): Option<int> {
    IntValue(Canon(v))
  }

  lemma {:induction false} NatDigitsRoundTrip(n: nat)
    ensures DigitsValue(NatDigits(n)) == Some(n)
    decreases n
  {
    if n >= 10 {
      var t := NatDigits(n);
      assert t[..|t| - 1] == NatDigits(n / 10);
      NatDigitsRoundTrip(n / 10);
    }
  }

  /** Reading back String(n) gives n. */
  lemma IntTextRoundTrip(n: int)
    ensures IntValue(IntText(n)) == Some(n)
  {
    var t := IntText(n);
    if n < 0 {
      assert t[0] == '-' && t[1..] == NatDigits(-n);
      NatDigitsRoundTrip(-n);
    } else {
      assert t == NatDigits(n) && t[0] != '-';
      NatDigitsRoundTrip(n);
    }
  }

  /** Two numbers have the same text exactly when they are equal. */
  lemma IntTextInjective(a: int, b: int)
    ensures IntText(a) == IntText(b) <==> a == b
  {
    IntTextRoundTrip(a);
    IntTextRoundTrip(b);
  }

  /** Numeric ids are the same id exactly when they are the same number. */
  lemma SameNumIff(a: int, b: int)
    ensures SameId(Num(a), Num(b)) <==> a == b
  {
    IntTextInjective(a, b);
  }

  /** A text id matches the number n exactly when it is the text of n. */
  lemma SameNumStrIff(n: int, t: string)
    ensures SameId(Num(n), Str(t)) <==> t == IntText(n)
    ensures SameId(Num(n), Str(t)) ==> IdNumber(Str(t)) == Some(n)
  {
    IntTextRoundTrip(n);
  }

  /** The number 1 and the text "1" are the same id. */
  lemma NumOneIsTextOne()
    ensures SameId(Num(1), Str("1"))
    ensures IdNumber(Str("1")) == Some(1)
  {
  }

  lemma NumIdNumber(n: int)
    ensures IdNumber(Num(n)) == Some(n)
  {
    IntTextRoundTrip(n);
  }
}
