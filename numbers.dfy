/** Rust's `u32::from_str`, the parse the issue-tag heuristic relies on. */
module Numbers {
  import opened Wrappers

  /** `u32::MAX`. */
  const U32Max: nat := 4294967295

  predicate IsDigit(c: char)
  {
    '0' <= c <= '9'
  }

  function DigitValue(c: char): nat
    requires IsDigit(c)
  {
    c as int - '0' as int
  }

  predicate AllDigits(s: string)
  {
    forall i :: 0 <= i < |s| ==> IsDigit(s[i])
  }

  /** Horner evaluation of the decimal digits `s`, continuing from `acc`. */
  function Horner(acc: nat, s: string): nat
    requires AllDigits(s)
    decreases |s|
  {
    if s == [] then acc else Horner(acc * 10 + DigitValue(s[0]), s[1..])
  }

  /** The number a string of decimal digits denotes (leading zeros allowed). */
  function DigitsValue(s: string): nat
    requires AllDigits(s)
  {
    Horner(0, s)
  }

  /** The text after the one optional leading `+` that `from_str` skips. */
  function Unsigned(s: string): string
  {
    if |s| > 0 && s[0] == '+' then s[1..] else s
  }

  /** What `u32::from_str` accepts: an optional `+`, then one or more ASCII
      digits whose value is at most `u32::MAX`. */
  predicate IsU32Literal(s: string)
  {
    var d := Unsigned(s);
    |d| > 0 && AllDigits(d) && DigitsValue(d) <= U32Max
  }

  /** Horner evaluation never decreases the accumulator. */
  lemma {:induction false} HornerGrows(acc: nat, s: string)
    requires AllDigits(s)
    ensures Horner(acc, s) >= acc
    decreases |s|
  {
    if s != [] {
      HornerGrows(acc * 10 + DigitValue(s[0]), s[1..]);
    }
  }

  /** The checked digit loop of `from_str`: each step multiplies by ten and
      adds the digit, and fails on a non-digit or once the value would pass
      `u32::MAX`. It succeeds exactly when every character is a digit and
      the whole value fits. */
  function Accumulate(acc: nat, d: string): (r: Option<nat>)
    requires acc <= U32Max
    ensures r.Some? <==> AllDigits(d) && Horner(acc, d) <= U32Max
    ensures r.Some? ==> r.value == Horner(acc, d)
    decreases |d|
  {
    if d == [] then Some(acc)
    else if !IsDigit(d[0]) then None
    else
      var next := acc * 10 + DigitValue(d[0]);
      assert AllDigits(d) <==> AllDigits(d[1..]) by {
        if AllDigits(d[1..]) {
          forall i | 0 <= i < |d| ensures IsDigit(d[i]) {
            if i > 0 { assert d[i] == d[1..][i - 1]; }
          }
        }
      }
      if next > U32Max then
        if AllDigits(d[1..]) then HornerGrows(next, d[1..]); None else None
      else
        Accumulate(next, d[1..])
  }

  /** `u32::from_str`, reduced to what the caller observes: the value on
      success, `None` on any error (empty text, a bare sign, a non-digit,
      overflow). */
  function ParseU32(s: string): (r: Option<nat>)
    ensures r.Some? <==> IsU32Literal(s)
    ensures r.Some? ==> r.value == DigitsValue(Unsigned(s)) && r.value <= U32Max
  {
    var d := Unsigned(s);
    if d == [] then None else Accumulate(0, d)
  }

  function DigitChar(v: nat): (c: char)
    requires v < 10
    ensures IsDigit(c) && DigitValue(c) == v
  {
    ('0' as int + v) as char
  }

  /** The canonical decimal text of `n`: no sign, no leading zero. */
  function Decimal(n: nat): (r: string)
    ensures |r| >= 1 && AllDigits(r)
  {
    if n < 10 then [DigitChar(n)] else Decimal(n / 10) + [DigitChar(n % 10)]
  }

  /** Appending a digit multiplies the value by ten and adds the digit. */
  lemma {:induction false} HornerAppend(acc: nat, s: string, c: char)
    requires AllDigits(s) && IsDigit(c)
    ensures AllDigits(s + [c])
    ensures Horner(acc, s + [c]) == Horner(acc, s) * 10 + DigitValue(c)
    decreases |s|
  {
    assert AllDigits(s + [c]) by {
      forall i | 0 <= i < |s + [c]| ensures IsDigit((s + [c])[i]) {
        if i < |s| { assert (s + [c])[i] == s[i]; }
      }
    }
    if s != [] {
      assert (s + [c])[1..] == s[1..] + [c];
      HornerAppend(acc * 10 + DigitValue(s[0]), s[1..], c);
    }
  }

  /** The decimal text denotes the number it was printed from. */
  lemma {:induction false} DecimalValue(n: nat)
    ensures DigitsValue(Decimal(n)) == n
  {
    if n >= 10 {
      DecimalValue(n / 10);
      HornerAppend(0, Decimal(n / 10), DigitChar(n % 10));
      assert DigitsValue(Decimal(n)) == (n / 10) * 10 + n % 10;
    } else {
      var c := DigitChar(n);
      assert [c][1..] == [];
      assert Horner(0, [c]) == Horner(DigitValue(c), []);
    }
  }

  /** Parsing undoes printing for every `u32`, with or without a leading `+`. */
  lemma ParseDecimal(n: nat)
    requires n <= U32Max
    ensures ParseU32(Decimal(n)) == Some(n)
    ensures ParseU32("+" + Decimal(n)) == Some(n)
  {
    DecimalValue(n);
    assert Unsigned("+" + Decimal(n)) == Decimal(n);
  }

  /** One past `u32::MAX` is refused, as are the empty text, a bare `+`,
      a minus sign and a letter. */
  lemma ParseU32Rejects()
    ensures ParseU32(Decimal(U32Max + 1)) == None
    ensures ParseU32("") == None && ParseU32("+") == None
    ensures ParseU32("-1") == None && ParseU32("abc") == None
  {
    DecimalValue(U32Max + 1);
  }
}
