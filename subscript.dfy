/** The subscript labels of the printed solution: the decimal digits of an
    index, each moved to the Unicode subscript block that starts at U+2080.
    Java strings are sequences of 16-bit code units, and so are these. */
module Subscripts {

  /** A Java `char`: one UTF-16 code unit. */
  newtype Char16 = x: int | 0 <= x < 0x1_0000

  type JString = seq<Char16>

  const ZERO: Char16 := 0x30            // '0'
  const MINUS: Char16 := 0x2D           // '-'
  const SUBSCRIPT_ZERO: Char16 := 0x2080
  /** Where '-' lands, three below SUBSCRIPT ZERO: U+207D, SUPERSCRIPT LEFT
      PARENTHESIS, not the subscript minus sign U+208B. */
  const MINUS_IMAGE: Char16 := 0x207D

  /** The decimal digits of n, most significant first, without leading zeros. */
  function Digits(n: nat): (s: JString)
    ensures |s| >= 1
  {
    if n < 10 then [ZERO + n as Char16] else Digits(n / 10) + [ZERO + (n % 10) as Char16]
  }

  /** `String.valueOf(i)`: the decimal form of i, with a leading '-' when it
      is negative. */
  function DecimalString(i: int): JString
  {
    if i < 0 then [MINUS] + Digits(-i) else Digits(i)
  }

  /** `(char) ('₀' + (ch - '0'))`: the offset from '0' added to
      SUBSCRIPT ZERO, narrowed to 16 bits as the cast does (the sum is never negative, so
      narrowing subtracts 2^16 at most once). */
  function SubscriptChar(c: Char16): Char16
  {
    var v := SUBSCRIPT_ZERO as int + (c as int - ZERO as int);
    (if v < 0x1_0000 then v else v - 0x1_0000) as Char16
  }

  /** Each character mapped in turn, appended at the end as a StringBuilder
      does. */
  function ToSubscript(s: JString): (r: JString)
    ensures |r| == |s|
  {
    if |s| == 0 then [] else ToSubscript(s[..|s| - 1]) + [SubscriptChar(s[|s| - 1])]
  }

  /** The label for index i. */
  function Subscript(i: int): JString
  {
    ToSubscript(DecimalString(i))
  }

  // ---------------------------------------------------------------------
  // Reading a label back

  predicate IsSubscriptDigit(c: Char16)
  {
    SUBSCRIPT_ZERO <= c < SUBSCRIPT_ZERO + 10
  }

  /** The value of a string of subscript digits. */
  function SubscriptValue(s: JString): int
  {
    if |s| == 0 then 0
    else SubscriptValue(s[..|s| - 1]) * 10 + (s[|s| - 1] as int - SUBSCRIPT_ZERO as int)
  }

  /** The integer a label stands for; U+207D in front reads as a minus sign. */
  function ParseSubscript(s: JString): int
  {
    if |s| > 0 && s[0] == MINUS_IMAGE then -SubscriptValue(s[1..]) else SubscriptValue(s)
  }

  // ---------------------------------------------------------------------
  // Properties

  /** Mapping a concatenation maps each part. */
  lemma {:induction false} ToSubscriptAppend(a: JString, b: JString)
    ensures ToSubscript(a + b) == ToSubscript(a) + ToSubscript(b)
    decreases |b|
  {
    if |b| > 0 {
      var b' := b[..|b| - 1];
      assert (a + b)[..|a + b| - 1] == a + b';
      ToSubscriptAppend(a, b');
    } else {
      assert a + b == a;
    }
  }

  /** The label of the digits of n consists of subscript digits and reads
      back as n. */
  lemma {:induction false} DigitsRoundTrip(n: nat)
    ensures forall k :: 0 <= k < |Digits(n)| ==> IsSubscriptDigit(ToSubscript(Digits(n))[k])
    ensures SubscriptValue(ToSubscript(Digits(n))) == n
  {
    var d := Digits(n);
    var t := ToSubscript(d);
    var last := SubscriptChar(ZERO + (n % 10) as Char16);
    assert last == SUBSCRIPT_ZERO + (n % 10) as Char16;
    if n < 10 {
      assert d[..0] == [];
      assert t == [last];
    } else {
      var prefix := Digits(n / 10);
      DigitsRoundTrip(n / 10);
      assert d[..|d| - 1] == prefix;
      var tp := ToSubscript(prefix);
      assert t == tp + [last];
      assert t[..|t| - 1] == tp;
      forall k | 0 <= k < |t| ensures IsSubscriptDigit(t[k]) {
        if k < |tp| {
          assert t[k] == tp[k];
        }
      }
    }
  }

  /** The label of a negative index is U+207D followed by the label of its
      magnitude. */
  lemma {:induction false} NegativeSubscript(i: int)
    requires i < 0
    ensures Subscript(i) == [MINUS_IMAGE] + ToSubscript(Digits(-i))
  {
    ToSubscriptAppend([MINUS], Digits(-i));
    assert ToSubscript([MINUS]) == [SubscriptChar(MINUS)];
  }

  lemma {:induction false} PrefixKeepsDigits(c: Char16, t: JString)
    requires forall k :: 0 <= k < |t| ==> IsSubscriptDigit(t[k])
    ensures forall k :: 1 <= k < |[c] + t| ==> IsSubscriptDigit(([c] + t)[k])
  {
    forall k | 1 <= k < |[c] + t| ensures IsSubscriptDigit(([c] + t)[k]) {
      assert ([c] + t)[k] == t[k - 1];
    }
  }

  /** The label of a negative index: U+207D, then subscript digits. */
  lemma {:induction false} NegativeSubscriptShape(i: int)
    requires i < 0
    ensures |Subscript(i)| == |DecimalString(i)|
    ensures Subscript(i)[0] == MINUS_IMAGE
    ensures forall k :: 1 <= k < |Subscript(i)| ==> IsSubscriptDigit(Subscript(i)[k])
  {
    DigitsRoundTrip(-i);
    NegativeSubscript(i);
    PrefixKeepsDigits(MINUS_IMAGE, ToSubscript(Digits(-i)));
  }

  /** Labels are decimal forms in subscript: one character per character of
      the decimal form; a non-negative index gives only subscript digits, a
      negative one U+207D followed by subscript digits. */
  lemma {:induction false} SubscriptShape(i: int)
    ensures |Subscript(i)| == |DecimalString(i)| >= 1
    ensures i >= 0 ==> forall k :: 0 <= k < |Subscript(i)| ==> IsSubscriptDigit(Subscript(i)[k])
    ensures i < 0 ==> Subscript(i)[0] == MINUS_IMAGE
    ensures i < 0 ==> forall k :: 1 <= k < |Subscript(i)| ==> IsSubscriptDigit(Subscript(i)[k])
  {
    if i >= 0 {
      DigitsRoundTrip(i);
    } else {
      NegativeSubscriptShape(i);
    }
  }

  /** A label reads back as the index it was made from. */
  lemma {:induction false} SubscriptRoundTrip(i: int)
    ensures ParseSubscript(Subscript(i)) == i
  {
    if i >= 0 {
      DigitsRoundTrip(i);
      assert IsSubscriptDigit(Subscript(i)[0]);
    } else {
      DigitsRoundTrip(-i);
      NegativeSubscript(i);
      assert Subscript(i)[1..] == ToSubscript(Digits(-i));
    }
  }
}
