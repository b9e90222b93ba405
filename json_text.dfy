/** Building blocks of the JSON text (RFC 8259) the response codecs emit: ASCII fragments, decimal
    integers, comma-separated lists and the `{"characteristics":[...]}` envelope. */
module JsonText {
  import opened HAPTypes

  ghost predicate IsAscii(s: string)
  {
    forall i | 0 <= i < |s| :: s[i] as int < 0x80
  }

  /** The bytes of an ASCII string. */
  function Ascii(s: string): (r: seq<byte>)
    requires IsAscii(s)
    ensures |r| == |s|
    ensures forall i | 0 <= i < |s| :: r[i] == s[i] as int
  {
    seq(|s|, i requires 0 <= i < |s| => s[i] as int)
  }

  const Comma: byte := ',' as int
  const Minus: byte := '-' as int
  const Zero: byte := '0' as int

  /** `{"characteristics":[` and `]}`, the envelope of every response body. */
  const Open: seq<byte> := Ascii("{\"characteristics\":[")
  const Close: seq<byte> := Ascii("]}")

  // ---------------------------------------------------------------------------------------------
  // Decimal integers

  predicate IsDigit(b: byte)
  {
    Zero <= b <= Zero + 9
  }

  /** A canonical decimal numeral: digits only, at least one, no leading zero unless it is "0". */
  ghost predicate Canonical(s: seq<byte>)
  {
    && |s| >= 1
    && (forall i | 0 <= i < |s| :: IsDigit(s[i]))
    && (|s| > 1 ==> s[0] != Zero)
  }

  /** The shortest decimal numeral of `n`. */
  function DecimalText(n: nat): (r: seq<byte>)
    ensures Canonical(r)
  {
    if n < 10 then [Zero + n] else DecimalText(n / 10) + [Zero + n % 10]
  }

  /** The number a digit string denotes. */
  function DigitsValue(s: seq<byte>): nat
    requires forall i | 0 <= i < |s| :: IsDigit(s[i])
  {
    if s == [] then 0
    else
      assert IsDigit(s[|s| - 1]);
      DigitsValue(s[..|s| - 1]) * 10 + (s[|s| - 1] - Zero)
  }

  /** Reading back a rendered number gives the number. */
  lemma {:induction false} DecimalTextValue(n: nat)
    ensures DigitsValue(DecimalText(n)) == n
  {
    if n >= 10 {
      var s := DecimalText(n);
      assert s[..|s| - 1] == DecimalText(n / 10);
      DecimalTextValue(n / 10);
    }
  }

  lemma {:induction false} CanonicalPositive(s: seq<byte>)
    requires Canonical(s) && s[0] != Zero
    ensures DigitsValue(s) > 0
  {
    if |s| > 1 {
      var init := s[..|s| - 1];
      assert init[0] == s[0];
      CanonicalPositive(init);
    }
  }

  /** Every canonical numeral is the rendering of its value: rendering and reading are inverse. */
  lemma {:induction false} CanonicalIsDecimalText(s: seq<byte>)
    requires Canonical(s)
    ensures DecimalText(DigitsValue(s)) == s
  {
    if |s| > 1 {
      var init := s[..|s| - 1];
      assert init[0] == s[0];
      CanonicalPositive(init);
      CanonicalIsDecimalText(init);
      var v := DigitsValue(init);
      assert DigitsValue(s) / 10 == v && DigitsValue(s) % 10 == s[|s| - 1] - Zero;
      assert s == init + [s[|s| - 1]];
    }
  }

  /** The width of DecimalText, computed without rendering. */
  function DecimalWidth(n: nat): (w: nat)
    ensures w == |DecimalText(n)|
  {
    if n < 10 then 1 else DecimalWidth(n / 10) + 1
  }

  function Pow10(k: nat): nat
  {
    if k == 0 then 1 else 10 * Pow10(k - 1)
  }

  /** A number below 10^k takes at most k digits; so a uint64 takes at most 20. */
  lemma {:induction false} DecimalWidthBound(n: nat, k: nat)
    requires 1 <= k && n < Pow10(k)
    ensures DecimalWidth(n) <= k
  {
    if n >= 10 {
      assert k > 1;
      DecimalWidthBound(n / 10, k - 1);
    }
  }

  lemma {:induction false} Pow10Add(a: nat, b: nat)
    ensures Pow10(a + b) == Pow10(a) * Pow10(b)
  {
    if a > 0 {
      Pow10Add(a - 1, b);
    }
  }

  lemma Pow10Twenty()
    ensures Pow10(10) == 10_000_000_000 && Pow10(20) == 100_000_000_000_000_000_000
  {
    assert Pow10(5) == 100_000;
    Pow10Add(5, 5);
    Pow10Add(10, 10);
  }

  /** A `uint64` takes at most 20 digits. */
  lemma DecimalWidthUInt64(n: uint64)
    ensures DecimalWidth(n) <= 20
  {
    Pow10Twenty();
    DecimalWidthBound(n, 20);
  }

  /** The decimal numeral of a signed integer. */
  function SignedText(i: int): seq<byte>
  {
    if i < 0 then [Minus] + DecimalText(-i) else DecimalText(i)
  }

  function SignedWidth(i: int): (w: nat)
    ensures w == |SignedText(i)|
  {
    if i < 0 then 1 + DecimalWidth(-i) else DecimalWidth(i)
  }

  /** An `int32` takes at most 11 characters: a sign and 10 digits. */
  lemma SignedWidthInt32(i: int32)
    ensures SignedWidth(i) <= 11
  {
    Pow10Twenty();
    DecimalWidthBound(if i < 0 then -(i as int) else i as int, 10);
  }

  // ---------------------------------------------------------------------------------------------
  // Lists

  /** The items separated by commas. */
  function Join(items: seq<seq<byte>>): seq<byte>
  {
    if |items| == 0 then []
    else if |items| == 1 then items[0]
    else Join(items[..|items| - 1]) + [Comma] + items[|items| - 1]
  }

  lemma JoinStep(items: seq<seq<byte>>, j: nat)
    requires j < |items|
    ensures Join(items[..j + 1]) == Join(items[..j]) + (if j == 0 then [] else [Comma]) + items[j]
  {
    assert items[..j + 1][..j] == items[..j];
  }

  /** The rendering of the first items is a prefix of the rendering of all of them. */
  lemma {:induction false} JoinPrefix(items: seq<seq<byte>>, j: nat)
    requires j <= |items|
    ensures Join(items[..j]) <= Join(items)
    decreases |items|
  {
    if j < |items| {
      var init := items[..|items| - 1];
      assert init[..j] == items[..j];
      JoinPrefix(init, j);
      if |items| == 1 {
        assert Join(items[..j]) == [];
      }
    } else {
      assert items[..j] == items;
    }
  }

  /** The `{"characteristics":[...]}` envelope around the items. */
  function Body(items: seq<seq<byte>>): seq<byte>
  {
    Open + Join(items) + Close
  }
}
