/** Text helpers: ASCII lower-casing and substring search for the search boxes, and fixed-width
    decimal fields for the date formats. */
module Text {
  import opened LibraryTypes

  /** `toLowerCase` restricted to ASCII letters. */
  function LowerChar(c: char): char {
    if 'A' <= c <= 'Z' then (c as int - 'A' as int + 'a' as int) as char else c
  }

  function Lower(s: string): (r: string)
    ensures |r| == |s|
    ensures forall i :: 0 <= i < |s| ==> r[i] == LowerChar(s[i])
    ensures forall i :: 0 <= i < |r| ==> !('A' <= r[i] <= 'Z')
  {
    if s == "" then "" else [LowerChar(s[0])] + Lower(s[1..])
  }

  /** Lower-casing twice is lower-casing once. */
  lemma LowerIdempotent(s: string)
    ensures Lower(Lower(s)) == Lower(s)
  {
  }

  /** `s.includes(t)`: `t` is a prefix of `s` or occurs in the rest of `s`. */
  predicate Contains(s: string, t: string)
    decreases |s|
  {
    |t| <= |s| && (s[..|t|] == t || (|s| > 0 && Contains(s[1..], t)))
  }

  /** `t` occurs in `s` starting at position `i`. */
  predicate OccursAt(s: string, t: string, i: int) {
    0 <= i && i + |t| <= |s| && s[i..i + |t|] == t
  }

  /** `Contains` means occurring at some position. */
  lemma {:induction false} ContainsIffOccurs(s: string, t: string)
    ensures Contains(s, t) <==> exists i :: OccursAt(s, t, i)
    decreases |s|
  {
    if Contains(s, t) {
      if s[..|t|] == t {
        assert OccursAt(s, t, 0);
      } else {
        ContainsIffOccurs(s[1..], t);
        var i :| OccursAt(s[1..], t, i);
        assert s[i + 1..i + 1 + |t|] == s[1..][i..i + |t|];
        assert OccursAt(s, t, i + 1);
      }
    }
    if exists i :: OccursAt(s, t, i) {
      var i :| OccursAt(s, t, i);
      if i > 0 {
        assert s[1..][i - 1..i - 1 + |t|] == s[i..i + |t|];
        assert OccursAt(s[1..], t, i - 1);
        ContainsIffOccurs(s[1..], t);
      }
    }
  }

  /** The empty string occurs in every string, so an empty search term keeps everything. */
  lemma ContainsEmpty(s: string)
    ensures Contains(s, "")
  {
  }

  /** A string occurs in itself. */
  lemma ContainsSelf(s: string)
    ensures Contains(s, s)
  {
  }

  predicate IsDigit(c: char) { '0' <= c <= '9' }

  function DigitChar(d: nat): (c: char)
    requires d < 10
    ensures IsDigit(c)
  {
    ('0' as int + d) as char
  }

  function DigitValue(c: char): (d: nat)
    requires IsDigit(c)
    ensures d < 10 && DigitChar(d) == c
  {
    c as int - '0' as int
  }

  function Pow10(w: nat): (p: nat)
    ensures p >= 1
  {
    if w == 0 then 1 else 10 * Pow10(w - 1)
  }

  /** The last `w` decimal digits of `n`, zero-padded on the left. */
  function PadNum(n: nat, w: nat): (s: string)
    ensures |s| == w
    ensures forall i :: 0 <= i < |s| ==> IsDigit(s[i])
  {
    if w == 0 then "" else PadNum(n / 10, w - 1) + [DigitChar(n % 10)]
  }

  /** The number written by a string of decimal digits; `None` if some character is not a
      digit. The empty string reads as 0. */
  function ReadDigits(s: string): (r: Option<nat>)
    ensures r.Some? <==> forall i :: 0 <= i < |s| ==> IsDigit(s[i])
  {
    if s == "" then Some(0)
    else if !IsDigit(s[|s| - 1]) then None
    else match ReadDigits(s[..|s| - 1])
      case Some(v) => Some(10 * v + DigitValue(s[|s| - 1]))
      case None => None
  }

  /** Reading a padded field gives the number back. */
  lemma {:induction false} ReadPadNum(n: nat, w: nat)
    requires n < Pow10(w)
    ensures ReadDigits(PadNum(n, w)) == Some(n)
  {
    if w > 0 {
      var s := PadNum(n, w);
      assert s[..w - 1] == PadNum(n / 10, w - 1);
      assert s[w - 1] == DigitChar(n % 10);
      ReadPadNum(n / 10, w - 1);
    }
  }

  /** A string of digits is the padded field of the number it reads as. */
  lemma {:induction false} PadNumRead(s: string, v: nat)
    requires ReadDigits(s) == Some(v)
    ensures v < Pow10(|s|)
    ensures PadNum(v, |s|) == s
  {
    if s != "" {
      var w := |s|;
      var u := ReadDigits(s[..w - 1]).value;
      PadNumRead(s[..w - 1], u);
      var d := DigitValue(s[w - 1]);
      assert v == 10 * u + d;
      assert v / 10 == u && v % 10 == d;
      assert s == s[..w - 1] + [s[w - 1]];
    }
  }

  /** The decimal numeral of `n` without leading zeros (JavaScript's `${n}` for a
      non-negative integer). */
  function Decimal(n: nat): (s: string)
    ensures |s| >= 1
    ensures forall i :: 0 <= i < |s| ==> IsDigit(s[i])
  {
    if n < 10 then [DigitChar(n)] else Decimal(n / 10) + [DigitChar(n % 10)]
  }

  /** The numeral reads back as the number. */
  lemma {:induction false} ReadDecimal(n: nat)
    ensures ReadDigits(Decimal(n)) == Some(n)
  {
    if n >= 10 {
      var s := Decimal(n);
      assert s[..|s| - 1] == Decimal(n / 10);
      ReadDecimal(n / 10);
    } else {
      var s := Decimal(n);
      assert s[..0] == "";
    }
  }
}
