/** Character and string helpers the stores rely on: ASCII lower-casing,
    substring search and decimal rendering of counters. */
module Text {
  import opened Wrappers

  /** Lower-cases one ASCII letter and leaves every other character alone. */
  function LowerChar(c: char): char
  {
    if 'A' <= c <= 'Z' then (c as int + 32) as char else c
  }

  /** Lower-cases every character of `s`. */
  function ToLower(s: string): (r: string)
    ensures |r| == |s|
    ensures forall i :: 0 <= i < |s| ==> r[i] == LowerChar(s[i])
  {
    seq(|s|, i requires 0 <= i < |s| => LowerChar(s[i]))
  }

  /** Case-insensitive equality as the stores use it for e-mail addresses. */
  predicate EqualsIgnoreCase(a: string, b: string)
  {
    ToLower(a) == ToLower(b)
  }

  /** True when `needle` occurs in `hay` as a contiguous block, searching from
      the front. */
  function Contains(hay: string, needle: string): bool
    decreases |hay|
  {
    needle <= hay || (|hay| > 0 && Contains(hay[1..], needle))
  }

  /** The independent definition of substring containment: some offset at which
      `needle` matches. */
  ghost predicate OccursAt(hay: string, needle: string, i: int)
  {
    0 <= i && i + |needle| <= |hay| && hay[i..i + |needle|] == needle
  }

  /** `Contains` finds a match exactly when some offset matches. */
  lemma {:induction false} ContainsIff(hay: string, needle: string)
    ensures Contains(hay, needle) <==> exists i :: OccursAt(hay, needle, i)
    decreases |hay|
  {
    if |hay| > 0 {
      ContainsIff(hay[1..], needle);
    }
    if Contains(hay, needle) {
      if needle <= hay {
        assert hay[0..|needle|] == needle;
        assert OccursAt(hay, needle, 0);
      } else {
        var i :| OccursAt(hay[1..], needle, i);
        assert hay[1..][i..i + |needle|] == hay[i + 1..i + 1 + |needle|];
        assert OccursAt(hay, needle, i + 1);
      }
    }
    if exists i :: OccursAt(hay, needle, i) {
      var i :| OccursAt(hay, needle, i);
      if i == 0 {
        assert needle <= hay;
      } else {
        assert hay[1..][i - 1..i - 1 + |needle|] == hay[i..i + |needle|];
        assert OccursAt(hay[1..], needle, i - 1);
      }
    }
  }

  /** The decimal digit character for `d`. */
  function DigitChar(d: nat): char
    requires d < 10
  {
    ('0' as int + d) as char
  }

  predicate IsDigit(c: char)
  {
    '0' <= c <= '9'
  }

  predicate AllDigits(s: string)
  {
    forall i :: 0 <= i < |s| ==> IsDigit(s[i])
  }

  /** The decimal rendering of a natural number, without leading zeros, as a
      template literal `${n}` produces it. */
  function DecimalString(n: nat): (s: string)
    ensures |s| >= 1 && AllDigits(s)
    ensures s[0] != '0' || n == 0
    decreases n
  {
    if n < 10 then [DigitChar(n)] else DecimalString(n / 10) + [DigitChar(n % 10)]
  }

  /** The value of a string of decimal digits. */
  function DecimalValue(s: string): nat
    requires AllDigits(s)
  {
    if |s| == 0 then 0
    else DecimalValue(s[..|s| - 1]) * 10 + (s[|s| - 1] as int - '0' as int)
  }

  /** Reads back a non-empty string of decimal digits. */
  function ParseDecimal(s: string): Option<nat>
  {
    if |s| > 0 && AllDigits(s) then Some(DecimalValue(s)) else None
  }

  /** Reading back a rendered number gives that number. */
  lemma {:induction false} ParseDecimalString(n: nat)
    ensures ParseDecimal(DecimalString(n)) == Some(n)
    decreases n
  {
    var s := DecimalString(n);
    if n < 10 {
      assert s[..0] == [];
      assert DecimalValue(s) == DecimalValue(s[..0]) * 10 + n;
    } else {
      ParseDecimalString(n / 10);
      assert s[..|s| - 1] == DecimalString(n / 10);
      assert s[|s| - 1] == DigitChar(n % 10);
      assert DecimalValue(s) == (n / 10) * 10 + n % 10;
    }
  }
}
