/** The `f"U+{ord(char):04X}"` label of a code point (app.py:123, app.py:129)
    and its decoding. */
module Labels {
  import opened Strings

  const HexDigits: string := "0123456789ABCDEF"

  /** Upper-case hexadecimal digits of `n` with no leading zero. */
  function Hex(n: nat): (r: string)
    ensures 1 <= |r|
    ensures forall k :: 0 <= k < |r| ==> r[k] in HexDigits
    ensures n < 0x10 ==> |r| == 1
    ensures n < 0x100 ==> |r| <= 2
    ensures n < 0x1000 ==> |r| <= 3
    ensures n < 0x1_0000 ==> |r| <= 4
    decreases n
  {
    if n < 16 then [HexDigits[n]] else Hex(n / 16) + [HexDigits[n % 16]]
  }

  /** The value of one hexadecimal digit. */
  function DigitValue(d: char): (v: nat)
    ensures v < 16
    ensures d in HexDigits ==> HexDigits[v] == d
  {
    var i := IndexOf(HexDigits, d);
    if i < 16 then i else 0
  }

  lemma DigitValueAt(k: nat)
    requires k < 16
    ensures DigitValue(HexDigits[k]) == k
  {
    assert forall i, j :: 0 <= i < j < 16 ==> HexDigits[i] != HexDigits[j];
  }

  /** The number a string of hexadecimal digits denotes. */
  function HexValue(s: string): nat
  {
    if s == [] then 0 else 16 * HexValue(s[..|s| - 1]) + DigitValue(s[|s| - 1])
  }

  function Zeros(z: nat): (r: string)
    ensures |r| == z && forall k :: 0 <= k < z ==> r[k] == '0'
  {
    if z == 0 then [] else Zeros(z - 1) + ['0']
  }

  /** `"U+"` and at least four upper-case hexadecimal digits, left-padded with
      zeros, as Python's `%04X` formats them. */
  function Label(c: char): (r: string)
    ensures 6 <= |r| && r[..2] == "U+"
    ensures c as int < 0x1_0000 ==> |r| == 6
    ensures forall k :: 2 <= k < |r| ==> r[k] in HexDigits
  {
    var h := Hex(c as int);
    "U+" + Zeros(if |h| < 4 then 4 - |h| else 0) + h
  }

  /** The character a label names, if it is a well-formed label of a Unicode
      scalar value. */
  function LabelValue(l: string): Option<char>
  {
    if 3 <= |l| && l[..2] == "U+" && forall k :: 2 <= k < |l| ==> l[k] in HexDigits then
      var v := HexValue(l[2..]);
      if v < 0xD800 || 0xE000 <= v < 0x11_0000 then Some(v as char) else None
    else None
  }

  lemma {:induction false} HexRoundTrip(n: nat)
    ensures HexValue(Hex(n)) == n
    decreases n
  {
    var h := Hex(n);
    if n < 16 {
      assert h[..|h| - 1] == [];
      DigitValueAt(n);
    } else {
      HexRoundTrip(n / 16);
      assert h[..|h| - 1] == Hex(n / 16);
      DigitValueAt(n % 16);
    }
  }

  lemma HexValueLast(t: string)
    requires t != []
    ensures HexValue(t) == 16 * HexValue(t[..|t| - 1]) + DigitValue(t[|t| - 1])
  {
  }

  /** Leading zeros do not change the value. */
  lemma {:induction false} LeadingZeros(z: nat, s: string)
    ensures HexValue(Zeros(z) + s) == HexValue(s)
    decreases |s|
  {
    if s == [] {
      LeadingZerosOnly(z);
      assert Zeros(z) + s == Zeros(z);
    } else {
      var t := Zeros(z) + s;
      var init, last := s[..|s| - 1], s[|s| - 1];
      assert t[..|t| - 1] == Zeros(z) + init;
      assert t[|t| - 1] == last;
      LeadingZeros(z, init);
      HexValueLast(t);
      HexValueLast(s);
    }
  }

  lemma {:induction false} LeadingZerosOnly(z: nat)
    ensures HexValue(Zeros(z)) == 0
  {
    if z > 0 {
      assert Zeros(z)[..z - 1] == Zeros(z - 1);
      assert DigitValue('0') == 0;
      LeadingZerosOnly(z - 1);
    }
  }

  /** The digits of a label denote the code point. */
  lemma LabelDigits(c: char)
    ensures HexValue(Label(c)[2..]) == c as int
  {
    var h := Hex(c as int);
    var z := if |h| < 4 then 4 - |h| else 0;
    assert Label(c)[2..] == Zeros(z) + h;
    LeadingZeros(z, h);
    HexRoundTrip(c as int);
  }

  /** Decoding a label gives back the character it was made from. */
  lemma LabelRoundTrip(c: char)
    ensures LabelValue(Label(c)) == Some(c)
  {
    LabelDigits(c);
  }

  /** Distinct characters have distinct labels. */
  lemma LabelInjective(c: char, d: char)
    requires Label(c) == Label(d)
    ensures c == d
  {
    LabelRoundTrip(c);
    LabelRoundTrip(d);
  }
}
