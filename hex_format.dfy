/**
 * Zero-padded lower-case hexadecimal, as Rust's `format!("{x:04x}")` and `format!("{x:02x}")`
 * print the ids of the fuzz targets, and its inverse.
 */
module HexFormat {
  import opened Wrappers

  const Digits: string := "0123456789abcdef"

  function Pow16(width: nat): (r: nat)
    ensures r > 0
  {
    if width == 0 then 1 else 16 * Pow16(width - 1)
  }

  /** The last `width` hexadecimal digits of `x`, most significant first. */
  function Hex(x: nat, width: nat): (s: string)
    ensures |s| == width
  {
    if width == 0 then "" else Hex(x / 16, width - 1) + [Digits[x % 16]]
  }

  /** The value of one lower-case hexadecimal digit. */
  function DigitValue(c: char): Option<nat> {
    if '0' <= c <= '9' then Some(c as nat - '0' as nat)
    else if 'a' <= c <= 'f' then Some(c as nat - 'a' as nat + 10)
    else None
  }

  /** The value of a string of lower-case hexadecimal digits, `None` if another character occurs. */
  function Unhex(s: string): Option<nat> {
    if s == [] then Some(0)
    else
      match Unhex(s[..|s| - 1])
      case None => None
      case Some(v) =>
        match DigitValue(s[|s| - 1])
        case None => None
        case Some(d) => Some(16 * v + d)
  }

  /** The bounds of two and of four hexadecimal digits. */
  lemma Pow16Values()
    ensures Pow16(2) == 0x100 && Pow16(4) == 0x1_0000
  {
  }

  lemma DigitRoundTrip(d: nat)
    requires d < 16
    ensures DigitValue(Digits[d]) == Some(d)
  {
  }

  lemma QuotientFits(x: nat, p: nat)
    requires x < 16 * p
    ensures x / 16 < p && x == 16 * (x / 16) + x % 16
  {
  }

  /** Appending a digit multiplies the value read so far by sixteen and adds the digit. */
  lemma UnhexSnoc(s: string, c: char, d: nat)
    requires DigitValue(c) == Some(d) && Unhex(s).Some?
    ensures Unhex(s + [c]) == Some(16 * Unhex(s).value + d)
  {
    var t := s + [c];
    assert t != [] && t[..|t| - 1] == s && t[|t| - 1] == c;
  }


  /** Printing a value that fits in `width` digits and reading it back gives the value. */
  lemma {:induction false} UnhexHex(x: nat, width: nat)
    requires x < Pow16(width)
    ensures Unhex(Hex(x, width)) == Some(x)
  {
    if width > 0 {
      var q, r := x / 16, x % 16;
      QuotientFits(x, Pow16(width - 1));
      UnhexHex(q, width - 1);
      var s := Hex(x, width);
      assert s == Hex(q, width - 1) + [Digits[r]];
      DigitRoundTrip(r);
      UnhexSnoc(Hex(q, width - 1), Digits[r], r);
    }
  }

  /** Two values that fit in `width` digits print the same only if they are equal. */
  lemma HexInjective(x: nat, y: nat, width: nat)
    requires x < Pow16(width) && y < Pow16(width)
    requires Hex(x, width) == Hex(y, width)
    ensures x == y
  {
    UnhexHex(x, width);
    UnhexHex(y, width);
  }

  // ---------------------------------------------------------------------------------------
  // Fuzz target ids

  /** The id a fuzz target prints for a number: `voter/` or `cand/` and `width` hex digits. */
  function FuzzId(voter: bool, x: nat, width: nat): string {
    (if voter then "voter/" else "cand/") + Hex(x, width)
  }

  /** The number behind a fuzz target id, `None` for any other string. */
  function IdNumber(s: string): Option<nat> {
    if |s| >= 6 && s[..6] == "voter/" then Unhex(s[6..])
    else if |s| >= 5 && s[..5] == "cand/" then Unhex(s[5..])
    else None
  }

  /** A fuzz target id gives back its number. */
  lemma IdNumberOfFuzzId(voter: bool, x: nat, width: nat)
    requires x < Pow16(width)
    ensures IdNumber(FuzzId(voter, x, width)) == Some(x)
  {
    var h := Hex(x, width);
    UnhexHex(x, width);
    if voter {
      var s := "voter/" + h;
      assert s[..6] == "voter/" && s[6..] == h;
    } else {
      var s := "cand/" + h;
      assert s[..5] == "cand/" && s[5..] == h;
      assert |s| >= 6 ==> s[..6][0] == 'c';
    }
  }
}
