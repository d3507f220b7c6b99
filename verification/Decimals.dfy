/** Canonical decimals, lower-case hex and identity texts of the certificate tables. */
module Decimals {
  import opened Basics

  predicate IsDigit(c: char) {
    '0' <= c <= '9'
  }

  predicate IsLowerHex(c: char) {
    IsDigit(c) || 'a' <= c <= 'f'
  }

  predicate IsHexText(t: string, length: nat) {
    |t| == length && forall i :: 0 <= i < |t| ==> IsLowerHex(t[i])
  }

  function HexValue(c: char): (r: Byte)
    requires IsLowerHex(c)
    ensures r < 16
  {
    if IsDigit(c) then c as int - '0' as int else c as int - 'a' as int + 10
  }

  function HexDigit(n: Byte): (c: char)
    requires n < 16
    ensures IsLowerHex(c) && HexValue(c) == n
  {
    if n < 10 then ('0' as int + n) as char else ('a' as int + n - 10) as char
  }

  /** parse_lower_hex: exactly two digits a byte. */
  function ParseHex(t: string, byteCount: nat): (r: Option<seq<Byte>>)
    ensures r.Some? <==> IsHexText(t, 2 * byteCount)
    ensures r.Some? ==> |r.value| == byteCount && PrintHex(r.value) == t
  {
    if !IsHexText(t, 2 * byteCount) then None
    else
      var bytes := seq(byteCount, i requires 0 <= i < byteCount => HexValue(t[2 * i]) * 16 + HexValue(t[2 * i + 1]));
      assert PrintHex(bytes) == t by {
        forall k | 0 <= k < |t|
          ensures PrintHex(bytes)[k] == t[k]
        {
          assert bytes[k / 2] / 16 == HexValue(t[2 * (k / 2)]) && bytes[k / 2] % 16 == HexValue(t[2 * (k / 2) + 1]);
        }
      }
      Some(bytes)
  }

  function PrintHex(bytes: seq<Byte>): (t: string)
    ensures IsHexText(t, 2 * |bytes|)
  {
    seq(2 * |bytes|, k requires 0 <= k < 2 * |bytes| =>
      HexDigit(if k % 2 == 0 then bytes[k / 2] / 16 else bytes[k / 2] % 16))
  }

  lemma HexRoundTrip(bytes: seq<Byte>)
    ensures ParseHex(PrintHex(bytes), |bytes|) == Some(bytes)
  {
    hide HexValue, HexDigit;
    var r := ParseHex(PrintHex(bytes), |bytes|).value;
    forall i | 0 <= i < |bytes|
      ensures r[i] == bytes[i]
    {
      SameHexSameByte(r, bytes, i);
    }
    assert r == bytes;
  }

  lemma SameHexSameByte(x: seq<Byte>, y: seq<Byte>, i: nat)
    requires i < |x| == |y| && PrintHex(x) == PrintHex(y)
    ensures x[i] == y[i]
  {
    hide HexDigit, HexValue;
    assert PrintHex(x)[2 * i] == HexDigit(x[i] / 16) && PrintHex(y)[2 * i] == HexDigit(y[i] / 16);
    assert PrintHex(x)[2 * i + 1] == HexDigit(x[i] % 16) && PrintHex(y)[2 * i + 1] == HexDigit(y[i] % 16);
  }

  // ---------- Decimals ----------

  /** Digits without a leading zero, except for "0" itself. */
  predicate IsCanonicalNat(t: string) {
    && |t| > 0
    && (t[0] == '0' ==> |t| == 1)
    && forall i :: 0 <= i < |t| ==> IsDigit(t[i])
  }

  /** decimal_is_canonical, negatives allowed: an optional sign, then canonical digits. */
  predicate IsCanonicalDecimal(t: string) {
    if |t| > 0 && t[0] == '-' then IsCanonicalNat(t[1..]) else IsCanonicalNat(t)
  }

  function NatValue(t: string): nat
    requires forall i :: 0 <= i < |t| ==> IsDigit(t[i])
  {
    if t == [] then 0
    else NatValue(t[..|t| - 1]) * 10 + HexValue(t[|t| - 1])
  }

  function DecimalValue(t: string): int
    requires IsCanonicalDecimal(t)
  {
    if t[0] == '-' then 0 - NatValue(t[1..]) as int else NatValue(t) as int
  }

  /** parse_int64_canonical. */
  function ParseInt64(t: string): Option<int> {
    if IsCanonicalDecimal(t) && INT64_MIN <= DecimalValue(t) <= INT64_MAX then Some(DecimalValue(t)) else None
  }

  /** parse_int32_canonical. */
  function ParseInt32(t: string): Option<int> {
    var v := ParseInt64(t);
    if v.Some? && INT_MIN <= v.value <= INT_MAX then v else None
  }

  function PrintNat(n: nat): (t: string)
    ensures IsCanonicalNat(t) && NatValue(t) == n
    ensures t[0] == '0' ==> n == 0
  {
    if n < 10 then
      var t := [('0' as int + n) as char];
      assert t[..0] == [];
      t
    else
      var t := PrintNat(n / 10) + [('0' as int + n % 10) as char];
      assert t[..|t| - 1] == PrintNat(n / 10);
      t
  }

  function PrintInt(n: int): (t: string)
    ensures IsCanonicalDecimal(t) && DecimalValue(t) == n && t != "-0"
  {
    if n < 0 then
      var t := "-" + PrintNat(-n);
      assert t[1..] == PrintNat(-n);
      t
    else PrintNat(n)
  }

  lemma {:induction false} CanonicalNatIsPrinted(t: string)
    requires IsCanonicalNat(t)
    ensures PrintNat(NatValue(t)) == t
  {
    if |t| == 1 {
      assert t[..0] == [];
      assert PrintNat(NatValue(t)) == [t[0]] == t;
    } else {
      var init := t[..|t| - 1];
      CanonicalNatIsPrinted(init);
      LeadingDigitCounts(init);
      assert NatValue(t) / 10 == NatValue(init);
      assert t == init + [t[|t| - 1]];
    }
  }

  lemma {:induction false} LeadingDigitCounts(t: string)
    requires IsCanonicalNat(t) && t[0] != '0'
    ensures NatValue(t) >= Pow10(|t| - 1)
  {
    if |t| > 1 {
      LeadingDigitCounts(t[..|t| - 1]);
    } else {
      assert t[..0] == [];
    }
  }

  function Pow10(n: nat): nat {
    if n == 0 then 1 else 10 * Pow10(n - 1)
  }

  /** A number has exactly one canonical text, but for "-0" beside "0". */
  lemma CanonicalDecimalIsPrinted(t: string)
    requires IsCanonicalDecimal(t)
    ensures PrintInt(DecimalValue(t)) == if t == "-0" then "0" else t
  {
    if t[0] == '-' {
      var digits := t[1..];
      assert t == "-" + digits;
      CanonicalNatIsPrinted(digits);
      if NatValue(digits) == 0 {
        assert PrintNat(0) == "0";
      }
    } else {
      CanonicalNatIsPrinted(t);
    }
  }

  lemma CanonicalDecimalsAreUnique(s: string, t: string)
    requires IsCanonicalDecimal(s) && IsCanonicalDecimal(t) && DecimalValue(s) == DecimalValue(t)
    ensures s == t || {s, t} == {"0", "-0"}
  {
    CanonicalDecimalIsPrinted(s);
    CanonicalDecimalIsPrinted(t);
  }

  lemma {:induction false} Pow10Grows(m: nat, n: nat)
    requires m <= n
    ensures Pow10(m) <= Pow10(n)
  {
    if m < n {
      Pow10Grows(m, n - 1);
    }
  }

  /** A canonical 64-bit decimal has at most twenty characters. */
  lemma Int64TextIsShort(t: string)
    requires ParseInt64(t).Some?
    ensures |t| <= 20
  {
    var digits := if t[0] == '-' then t[1..] else t;
    assert Pow10(19) == 10_000_000_000_000_000_000 by {
      assert Pow10(5) == 100_000;
      assert Pow10(10) == 10_000_000_000;
      assert Pow10(15) == 1_000_000_000_000_000;
    }
    if |digits| > 19 {
      LeadingDigitCounts(digits);
      Pow10Grows(19, |digits| - 1);
    }
  }

  // ---------- Identities ----------

  function FirstIndex(t: string, c: char): (r: Option<nat>)
    ensures r.Some? ==> r.value < |t| && t[r.value] == c && forall i :: 0 <= i < r.value ==> t[i] != c
    ensures r.None? ==> forall i :: 0 <= i < |t| ==> t[i] != c
  {
    if t == [] then None
    else if t[0] == c then Some(0)
    else match FirstIndex(t[1..], c)
      case None => None
      case Some(i) => Some(i + 1)
  }

  datatype Identity = Identity(digest: string, pathId: int)

  /** parse_identity: prefix, colon, 64 hex digits, colon, canonical 64-bit decimal. */
  function ParseIdentity(t: string, prefix: char): (r: Option<Identity>)
    ensures r.Some? ==> IsHexText(r.value.digest, 64)
  {
    if |t| < 2 || t[0] != prefix || t[1] != ':' then None
    else
      var rest := t[2..];
      var separator := FirstIndex(rest, ':');
      if separator != Some(64) || !IsHexText(rest[..64], 64) then None
      else
        var path := ParseInt64(rest[65..]);
        if path.None? then None else Some(Identity(rest[..64], path.value))
  }

  /** A well-formed identity fits its 96-byte buffer with room to spare. */
  lemma IdentityIsShort(t: string, prefix: char)
    requires ParseIdentity(t, prefix).Some?
    ensures |t| <= 87
  {
    Int64TextIsShort(t[2..][65..]);
  }

  /** Tabs, line ends and terminators cannot occur in a decimal, a hex text or an identity. */
  predicate IsPlain(t: string) {
    forall i :: 0 <= i < |t| ==> t[i] != '\t' && t[i] != '\n' && t[i] != '\r' && t[i] != '\0'
  }

  lemma DecimalIsPlain(t: string)
    requires IsCanonicalDecimal(t)
    ensures IsPlain(t)
  {
    if t[0] == '-' {
      assert forall i :: 1 <= i < |t| ==> t[i] == t[1..][i - 1];
    }
  }

  lemma IdentityIsPlain(t: string, prefix: char)
    requires ParseIdentity(t, prefix).Some? && (prefix == 'o' || prefix == 's')
    ensures IsPlain(t)
  {
    var rest := t[2..];
    DecimalIsPlain(rest[65..]);
    forall i | 2 <= i < |t|
      ensures t[i] != '\t' && t[i] != '\n' && t[i] != '\r' && t[i] != '\0'
    {
      assert t[i] == rest[i - 2];
      if i - 2 < 64 {
        assert rest[i - 2] == rest[..64][i - 2];
      } else if i - 2 > 64 {
        assert rest[i - 2] == rest[65..][i - 67];
      }
    }
  }
}
