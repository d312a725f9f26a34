/**
 * Text primitives: decimal numerals, length-prefixed fields and the
 * `strings.TrimPrefix` of Go's standard library.
 *
 * Numerals are canonical (no leading zeros), so reading is the exact inverse
 * of writing: `ReadNat(s) == Some((n, rest))` holds exactly when
 * `s == NatText(n) + rest` and `rest` does not continue the numeral.
 */
module Text {
  import opened Wrappers

  predicate IsDigit(c: char) {
    '0' <= c <= '9'
  }

  predicate AllDigits(s: string) {
    forall i :: 0 <= i < |s| ==> IsDigit(s[i])
  }

  function DigitChar(d: nat): (c: char)
    requires d < 10
    ensures IsDigit(c) && DigitValue(c) == d
  {
    ('0' as int + d) as char
  }

  function DigitValue(c: char): nat
    requires IsDigit(c)
  {
    c as int - '0' as int
  }

  /** The decimal numeral of `n`, most significant digit first. */
  function NatText(n: nat): (s: string)
    ensures |s| > 0 && AllDigits(s)
    ensures |s| > 1 ==> s[0] != '0'
    decreases n
  {
    if n < 10 then [DigitChar(n)] else NatText(n / 10) + [DigitChar(n % 10)]
  }

  /** The value of a string of digits. */
  function NatValue(s: string): nat
    requires AllDigits(s)
  {
    if s == [] then 0 else NatValue(s[..|s| - 1]) * 10 + DigitValue(s[|s| - 1])
  }

  /** A numeral as `NatText` writes it: digits only, no leading zero. */
  predicate Canonical(s: string) {
    |s| > 0 && AllDigits(s) && (|s| > 1 ==> s[0] != '0')
  }

  lemma {:induction false} NatValueOfText(n: nat)
    ensures NatValue(NatText(n)) == n
    decreases n
  {
    if n >= 10 {
      var t := NatText(n);
      assert t[..|t| - 1] == NatText(n / 10);
      NatValueOfText(n / 10);
    }
  }

  lemma {:induction false} CanonicalAtLeastTen(s: string)
    requires Canonical(s) && |s| > 1
    ensures NatValue(s) >= 10
    decreases |s|
  {
    var init := s[..|s| - 1];
    assert init[0] == s[0];
    if |init| > 1 {
      CanonicalAtLeastTen(init);
    } else {
      assert NatValue(init) == DigitValue(init[0]) + 0 by {
        assert init[..0] == [];
      }
    }
  }

  lemma {:induction false} TextOfNatValue(s: string)
    requires Canonical(s)
    ensures NatText(NatValue(s)) == s
    decreases |s|
  {
    if |s| == 1 {
      assert s[..0] == [];
      assert NatValue(s) == DigitValue(s[0]);
    } else {
      var init := s[..|s| - 1];
      assert init[0] == s[0];
      CanonicalAtLeastTen(s);
      if |init| > 1 {
        TextOfNatValue(init);
      } else {
        assert init[..0] == [];
      }
      var n := NatValue(s);
      assert n / 10 == NatValue(init) && n % 10 == DigitValue(s[|s| - 1]);
      assert s == init + [s[|s| - 1]];
    }
  }

  /** Length of the run of digits that `s` starts with. */
  function DigitRun(s: string): (k: nat)
    ensures k <= |s| && AllDigits(s[..k])
    ensures k < |s| ==> !IsDigit(s[k])
  {
    if s != [] && IsDigit(s[0]) then
      var k' := DigitRun(s[1..]);
      assert s[..1 + k'] == [s[0]] + s[1..][..k'];
      1 + k'
    else 0
  }

  lemma {:induction false} DigitRunOfDigits(t: string, rest: string)
    requires AllDigits(t)
    requires rest == [] || !IsDigit(rest[0])
    ensures DigitRun(t + rest) == |t|
    decreases |t|
  {
    if t != [] {
      assert (t + rest)[1..] == t[1..] + rest;
      DigitRunOfDigits(t[1..], rest);
    }
  }

  /** Reads a canonical numeral from the front of `s`; the remainder follows it. */
  function ReadNat(s: string): (r: Option<(nat, string)>)
    ensures r.Some? ==> s == NatText(r.value.0) + r.value.1
    ensures r.Some? ==> r.value.1 == [] || !IsDigit(r.value.1[0])
  {
    var k := DigitRun(s);
    if k == 0 || (k > 1 && s[0] == '0') then None
    else
      var n := NatValue(s[..k]);
      TextOfNatValue(s[..k]);
      assert s == s[..k] + s[k..];
      Some((n, s[k..]))
  }

  lemma ReadNatText(n: nat, rest: string)
    requires rest == [] || !IsDigit(rest[0])
    ensures ReadNat(NatText(n) + rest) == Some((n, rest))
  {
    var t := NatText(n);
    DigitRunOfDigits(t, rest);
    assert (t + rest)[..|t|] == t;
    assert (t + rest)[|t|..] == rest;
    NatValueOfText(n);
  }

  /** A length-prefixed field: the length, a colon, then the text itself. */
  function Field(x: string): string {
    NatText(|x|) + ":" + x
  }

  /** Reads one `Field` from the front of `s`. */
  function ReadField(s: string): (r: Option<(string, string)>)
    ensures r.Some? ==> s == Field(r.value.0) + r.value.1
  {
    match ReadNat(s)
    case None => None
    case Some((n, rest)) =>
      if |rest| > n && rest[0] == ':' then
        assert rest == ":" + rest[1..1 + n] + rest[1 + n..];
        Some((rest[1..1 + n], rest[1 + n..]))
      else None
  }

  lemma ReadFieldOf(x: string, rest: string)
    ensures ReadField(Field(x) + rest) == Some((x, rest))
  {
    var tail := ":" + x + rest;
    ReadNatText(|x|, tail);
    assert Field(x) + rest == NatText(|x|) + tail;
    assert tail[1..1 + |x|] == x && tail[1 + |x|..] == rest;
  }

  /**
   * Go's `strings.TrimPrefix`: `s` without `prefix` when it starts with it,
   * otherwise `s` unchanged.
   */
  function TrimPrefix(s: string, prefix: string): (r: string)
    ensures prefix <= s ==> prefix + r == s
    ensures !(prefix <= s) ==> r == s
  {
    if prefix <= s then s[|prefix|..] else s
  }
}
