/**
 * The text handling `fuzz-afl/src/compile.rs` borrows from Rust's standard library: `str::trim`,
 * `str::split(' ')` and `u8::from_str`.
 */
module AflText {
  import opened Wrappers
  import opened MachineInts

  // ---------------------------------------------------------------------------------------
  // trim

  /** Unicode `White_Space`, what `char::is_whitespace` accepts. */
  predicate IsWhiteSpace(c: char) {
    || '\U{9}' <= c <= '\U{D}'
    || c == '\U{20}' || c == '\U{85}' || c == '\U{A0}' || c == '\U{1680}'
    || '\U{2000}' <= c <= '\U{200A}'
    || c == '\U{2028}' || c == '\U{2029}' || c == '\U{202F}' || c == '\U{205F}' || c == '\U{3000}'
  }

  function TrimStart(s: string): string {
    if s != [] && IsWhiteSpace(s[0]) then TrimStart(s[1..]) else s
  }

  function TrimEnd(s: string): string {
    if s != [] && IsWhiteSpace(s[|s| - 1]) then TrimEnd(s[..|s| - 1]) else s
  }

  /** `str::trim`: drops white space at both ends. */
  function Trim(s: string): string {
    TrimEnd(TrimStart(s))
  }

  /** `TrimStart` drops a run of white space from the front and stops at anything else. */
  lemma {:induction false} TrimStartDrops(s: string)
    ensures |TrimStart(s)| <= |s| && TrimStart(s) == s[|s| - |TrimStart(s)|..]
    ensures forall k | 0 <= k < |s| - |TrimStart(s)| :: IsWhiteSpace(s[k])
    ensures TrimStart(s) != [] ==> !IsWhiteSpace(TrimStart(s)[0])
  {
    if s != [] && IsWhiteSpace(s[0]) {
      TrimStartDrops(s[1..]);
      forall k | 0 < k < |s| - |TrimStart(s)| ensures IsWhiteSpace(s[k]) {
        assert s[k] == s[1..][k - 1];
      }
    }
  }

  /** `TrimEnd` drops a run of white space from the back and stops at anything else. */
  lemma {:induction false} TrimEndDrops(s: string)
    ensures |TrimEnd(s)| <= |s| && TrimEnd(s) == s[..|TrimEnd(s)|]
    ensures forall k | |TrimEnd(s)| <= k < |s| :: IsWhiteSpace(s[k])
    ensures TrimEnd(s) != [] ==> !IsWhiteSpace(TrimEnd(s)[|TrimEnd(s)| - 1])
  {
    if s != [] && IsWhiteSpace(s[|s| - 1]) {
      TrimEndDrops(s[..|s| - 1]);
    }
  }

  /**
   * `Trim(s)` is the slice of `s` from `i`, the length of the white space `TrimStart` drops, to
   * `j`: everything outside it is white space, and it neither starts nor ends with white space.
   */
  lemma {:induction false} TrimSpec(s: string)
    ensures var i := |s| - |TrimStart(s)|; var j := i + |Trim(s)|;
      && 0 <= i <= j <= |s|
      && Trim(s) == s[i..j]
      && (forall k | 0 <= k < i :: IsWhiteSpace(s[k]))
      && (forall k | j <= k < |s| :: IsWhiteSpace(s[k]))
    ensures Trim(s) != [] ==> !IsWhiteSpace(Trim(s)[0]) && !IsWhiteSpace(Trim(s)[|Trim(s)| - 1])
  {
    var u := TrimStart(s);
    var i := |s| - |u|;
    var j := i + |TrimEnd(u)|;
    TrimStartDrops(s);
    TrimEndDrops(u);
    forall k | j <= k < |s| ensures IsWhiteSpace(s[k]) {
      assert s[k] == u[k - i];
    }
  }

  // ---------------------------------------------------------------------------------------
  // split(' ')

  /** `str::split(' ')`: the pieces between spaces, empty ones included; never no piece. */
  function Split(s: string): (words: seq<string>)
    ensures |words| >= 1
  {
    if s == [] then [""]
    else if s[0] == ' ' then [""] + Split(s[1..])
    else
      var rest := Split(s[1..]);
      [[s[0]] + rest[0]] + rest[1..]
  }

  /** The pieces put back together with single spaces. */
  function Join(words: seq<string>): string
    requires |words| >= 1
  {
    if |words| == 1 then words[0] else words[0] + " " + Join(words[1..])
  }

  /** Splitting loses nothing and every piece is free of spaces. */
  lemma {:induction false} SplitJoin(s: string)
    ensures Join(Split(s)) == s
    ensures forall k | 0 <= k < |Split(s)| :: ' ' !in Split(s)[k]
  {
    if s != [] {
      SplitJoin(s[1..]);
      var rest := Split(s[1..]);
      if s[0] == ' ' {
        assert Split(s)[1..] == rest;
        assert s == [' '] + s[1..];
      } else {
        var words := Split(s);
        assert words[0] == [s[0]] + rest[0];
        if |rest| == 1 {
          assert s == [s[0]] + rest[0];
        } else {
          assert words[1..] == rest[1..];
          assert Join(rest) == rest[0] + " " + Join(rest[1..]);
          assert s == [s[0]] + s[1..];
        }
        forall k | 0 <= k < |words| ensures ' ' !in words[k] {
          if k > 0 {
            assert words[k] == rest[k];
          }
        }
      }
    }
  }

  // ---------------------------------------------------------------------------------------
  // u8::from_str

  function DigitOf(c: char): nat
    requires '0' <= c <= '9'
  {
    c as nat - '0' as nat
  }

  /**
   * The digit loop of `u8::from_str`, left to right from `acc`: a non-digit is an invalid digit,
   * and a value above 255 is an overflow as soon as it appears.
   */
  function Accumulate(digits: string, acc: u8): Result<u8> {
    if digits == [] then Ok(acc)
    else if !('0' <= digits[0] <= '9') then Panic("InvalidDigit")
    else
      var v := 10 * acc as int + DigitOf(digits[0]);
      if v > 0xFF then Panic("PosOverflow") else Accumulate(digits[1..], v as u8)
  }

  /**
   * `u8::from_str`: the empty string is an error, a lone sign is an invalid digit, a leading `+`
   * is dropped, and the rest must be decimal digits worth at most 255. The error is the name of
   * Rust's `IntErrorKind`.
   */
  function ParseU8(s: string): Result<u8> {
    if s == [] then Panic("Empty")
    else if s == "+" || s == "-" then Panic("InvalidDigit")
    else if s[0] == '+' then Accumulate(s[1..], 0)
    else Accumulate(s, 0)
  }

  /** The decimal digits of `n`, most significant first, without leading zeros. */
  function Decimal(n: nat): (s: string)
    ensures |s| >= 1 && '0' <= s[0] <= '9'
  {
    if n < 10 then ["0123456789"[n]] else Decimal(n / 10) + ["0123456789"[n % 10]]
  }

  /** The digit loop on two strings is the loop on the second from where the first stopped. */
  lemma {:induction false} AccumulateAppend(s: string, t: string, acc: u8)
    ensures Accumulate(s + t, acc) ==
      match Accumulate(s, acc)
      case Ok(a) => Accumulate(t, a)
      case Panic(e) => Panic(e)
  {
    if s == [] {
      assert s + t == t;
    } else {
      assert (s + t)[0] == s[0] && (s + t)[1..] == s[1..] + t;
      if '0' <= s[0] <= '9' {
        var v := 10 * acc as int + DigitOf(s[0]);
        if v <= 0xFF {
          AccumulateAppend(s[1..], t, v as u8);
        }
      }
    }
  }

  /**
   * `u8::from_str` reads back every number written in decimal: the value itself when it is at
   * most 255, and an overflow otherwise.
   */
  lemma {:induction false} ParseU8Decimal(n: nat)
    ensures n <= 0xFF ==> ParseU8(Decimal(n)) == Ok(n as u8)
    ensures n > 0xFF ==> ParseU8(Decimal(n)) == Panic("PosOverflow")
  {
    var s := Decimal(n);
    assert s != "+" && s != "-" && s[0] != '+' by {
      assert '0' <= s[0] <= '9';
    }
    if n < 10 {
      assert DigitOf(s[0]) == n && s[1..] == [];
      assert Accumulate(s, 0) == Accumulate([], n as u8);
      assert ParseU8(s) == Accumulate(s, 0);
    } else {
      var d := "0123456789"[n % 10];
      var high := Decimal(n / 10);
      ParseU8Decimal(n / 10);
      assert high != "+" && high != "-" && high[0] != '+' by {
        assert '0' <= high[0] <= '9';
      }
      AccumulateAppend(high, [d], 0);
      assert DigitOf(d) == n % 10 && [d][1..] == [];
      assert s == high + [d];
    }
  }
}
