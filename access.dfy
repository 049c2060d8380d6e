/**
 * The small pure rules both admin pages share: the permission check on the caller's
 * "Permission" claim and the page count of a paged listing.
 */
module Access {
  import opened Common

  /** Account tiers, lowest first. */
  datatype AccountIdentity = Guest | Supervisor | Admin | SuperAdmin

  /** The integer a tier is compared as. */
  function TierValue(t: AccountIdentity): int
  {
    match t
    case Guest => 0
    case Supervisor => 1
    case Admin => 2
    case SuperAdmin => 3
  }

  const MinInt32: int := -0x8000_0000
  const MaxInt32: int := 0x7FFF_FFFF

  /** `char.IsWhiteSpace`: the Unicode separators plus the control characters U+0009..U+000D and U+0085. */
  predicate IsWhiteSpace(c: char)
  {
    c == ' ' || ('\t' <= c <= '\r') || c == '\U{0085}' || c == '\U{00A0}' || c == '\U{1680}'
    || ('\U{2000}' <= c <= '\U{200A}') || c == '\U{2028}' || c == '\U{2029}' || c == '\U{202F}'
    || c == '\U{205F}' || c == '\U{3000}'
  }

  /** `string.IsNullOrWhiteSpace`. */
  predicate IsNullOrWhiteSpace(s: Option<string>)
  {
    s.None? || forall i :: 0 <= i < |s.value| ==> IsWhiteSpace(s.value[i])
  }

  /** The white space `int.TryParse` skips before and after the number. */
  predicate IsNumberWhite(c: char)
  {
    c == ' ' || ('\t' <= c <= '\r')
  }

  function TrimStart(s: string): (r: string)
    ensures |r| <= |s| && r == s[|s| - |r|..]
    ensures r != [] ==> !IsNumberWhite(r[0])
  {
    if s != [] && IsNumberWhite(s[0]) then TrimStart(s[1..]) else s
  }

  function TrimEnd(s: string): (r: string)
    ensures |r| <= |s| && r == s[..|r|]
    ensures r != [] ==> !IsNumberWhite(r[|r| - 1])
  {
    if s != [] && IsNumberWhite(s[|s| - 1]) then TrimEnd(s[..|s| - 1]) else s
  }

  predicate IsDigit(c: char)
  {
    '0' <= c <= '9'
  }

  predicate AllDigits(s: string)
  {
    forall i :: 0 <= i < |s| ==> IsDigit(s[i])
  }

  /** The value of a string of decimal digits, most significant first. */
  function DigitsValue(s: string): (v: nat)
    requires AllDigits(s)
  {
    if s == [] then 0 else 10 * DigitsValue(s[..|s| - 1]) + (s[|s| - 1] as int - '0' as int)
  }

  /** `s` without its trailing `'\0'` characters. */
  function TrimNuls(s: string): (r: string)
    ensures |r| <= |s| && r == s[..|r|]
    ensures r != [] ==> r[|r| - 1] != '\0'
  {
    if s != [] && s[|s| - 1] == '\0' then TrimNuls(s[..|s| - 1]) else s
  }

  /**
   * `int.TryParse` with the default integer style: optional white space, an optional
   * sign, one or more decimal digits, optional white space, and a value that fits in 32 bits.
   * Like .NET, it accepts any number of `'\0'` characters at the very end.
   */
  function ParseInt32(s: string): (r: Option<int>)
    ensures r.Some? ==> MinInt32 <= r.value <= MaxInt32
    ensures s == [] ==> r.None?
  {
    ParseNumber(TrimEnd(TrimStart(TrimNuls(s))))
  }

  /** The number `int.TryParse` reads once the white space and trailing `'\0'`s are gone: a sign, then digits. */
  function ParseNumber(t: string): (r: Option<int>)
    ensures r.Some? ==> MinInt32 <= r.value <= MaxInt32
    ensures t == [] ==> r.None?
  {
    var negative := t != [] && t[0] == '-';
    var body := if t != [] && (t[0] == '-' || t[0] == '+') then t[1..] else t;
    if body == [] || !AllDigits(body) then None
    else
      var d: int := DigitsValue(body);
      var v := if negative then -d else d;
      if MinInt32 <= v <= MaxInt32 then Some(v) else None
  }

  /**
   * What `ParseNumber` accepts: an optional sign followed only by digits, with a negative value
   * only after `-`; and every digit string whose value fits is read as that value.
   */
  lemma ParseNumberShape(t: string)
    ensures ParseNumber(t).Some? ==> && (IsDigit(t[0]) || t[0] == '-' || t[0] == '+')
                                     && (forall i | 0 < i < |t| :: IsDigit(t[i]))
                                     && (ParseNumber(t).value < 0 ==> t[0] == '-')
    ensures ParseNumber(t).Some? ==>
              var body := t[if t[0] == '-' || t[0] == '+' then 1 else 0..];
              && AllDigits(body)
              && ParseNumber(t).value == if t[0] == '-' then -(DigitsValue(body) as int) else DigitsValue(body)
    ensures t != [] && AllDigits(t) && DigitsValue(t) <= MaxInt32 ==> ParseNumber(t) == Some(DigitsValue(t))
  {
  }

  /** `n` with the sign `sign`: negative after `-`, as it is otherwise. */
  function Signed(sign: string, n: nat): int
  {
    if sign == "-" then -(n as int) else n
  }

  /** A sign (or none) followed by the decimal spelling of `n` is read as `n` with that sign. */
  lemma ParseSignedDecimal(sign: string, n: nat)
    requires sign == "" || sign == "+" || sign == "-"
    requires MinInt32 <= Signed(sign, n) <= MaxInt32
    ensures ParseNumber(sign + DecimalString(n)) == Some(Signed(sign, n))
  {
    var d := DecimalString(n);
    DecimalStringValue(n);
    if sign == "" {
      assert sign + d == d;
      assert IsDigit(d[0]);
    } else {
      assert (sign + d)[1..] == d;
    }
  }

  /**
   * `int.TryParse` on a padded claim: white space, an optional sign, the decimal spelling of a
   * number, white space and trailing `'\0'`s are read as that number with its sign, whenever
   * the signed value fits in 32 bits.
   */
  lemma ParseInt32Reads(pre: string, sign: string, n: nat, post: string, nuls: string)
    requires forall j | 0 <= j < |pre| :: IsNumberWhite(pre[j])
    requires sign == "" || sign == "+" || sign == "-"
    requires forall j | 0 <= j < |post| :: IsNumberWhite(post[j])
    requires forall j | 0 <= j < |nuls| :: nuls[j] == '\0'
    requires MinInt32 <= Signed(sign, n) <= MaxInt32
    ensures ParseInt32(pre + sign + DecimalString(n) + post + nuls) == Some(Signed(sign, n))
  {
    var d := DecimalString(n);
    var core := sign + d;
    assert pre + sign + d + post + nuls == pre + core + post + nuls;
    assert core[|core| - 1] == d[|d| - 1];
    assert core[0] == if sign == "" then d[0] else sign[0];
    TrimsPadding(pre, core, post, nuls);
    ParseSignedDecimal(sign, n);
  }

  /** Trimming removes exactly the white space around a number and the `'\0'`s after it. */
  lemma TrimsPadding(pre: string, core: string, post: string, nuls: string)
    requires forall j | 0 <= j < |pre| :: IsNumberWhite(pre[j])
    requires core != [] && !IsNumberWhite(core[0]) && IsDigit(core[|core| - 1])
    requires forall j | 0 <= j < |post| :: IsNumberWhite(post[j])
    requires forall j | 0 <= j < |nuls| :: nuls[j] == '\0'
    ensures TrimEnd(TrimStart(TrimNuls(pre + core + post + nuls))) == core
  {
    var x := pre + core + post;
    assert x[|x| - 1] == if post == [] then core[|core| - 1] else post[|post| - 1];
    TrimNulsSuffix(x, nuls);
    TrimsWhite(pre, core, post);
  }

  /** Trimming removes exactly the white space around a number. */
  lemma TrimsWhite(pre: string, core: string, post: string)
    requires forall j | 0 <= j < |pre| :: IsNumberWhite(pre[j])
    requires core != [] && !IsNumberWhite(core[0]) && !IsNumberWhite(core[|core| - 1])
    requires forall j | 0 <= j < |post| :: IsNumberWhite(post[j])
    ensures TrimEnd(TrimStart(pre + core + post)) == core
  {
    assert pre + core + post == pre + (core + post);
    assert (core + post)[0] == core[0];
    TrimStartWhite(pre, core + post);
    TrimEndWhite(core, post);
  }

  /** White space before a text that does not start with white space is all `TrimStart` removes. */
  lemma {:induction false} TrimStartWhite(pre: string, rest: string)
    requires forall j | 0 <= j < |pre| :: IsNumberWhite(pre[j])
    requires rest != [] && !IsNumberWhite(rest[0])
    ensures TrimStart(pre + rest) == rest
  {
    if pre == [] {
      assert pre + rest == rest;
    } else {
      assert (pre + rest)[0] == pre[0];
      assert (pre + rest)[1..] == pre[1..] + rest;
      TrimStartWhite(pre[1..], rest);
    }
  }

  /** White space after a text that does not end in white space is all `TrimEnd` removes. */
  lemma {:induction false} TrimEndWhite(rest: string, post: string)
    requires rest != [] && !IsNumberWhite(rest[|rest| - 1])
    requires forall j | 0 <= j < |post| :: IsNumberWhite(post[j])
    ensures TrimEnd(rest + post) == rest
  {
    if post == [] {
      assert rest + post == rest;
    } else {
      var shorter := post[..|post| - 1];
      assert (rest + post)[|rest + post| - 1] == post[|post| - 1];
      assert (rest + post)[..|rest + post| - 1] == rest + shorter;
      TrimEndWhite(rest, shorter);
    }
  }

  /**
   * `HasPermission(required)`: a missing or empty claim is denied; otherwise the claim must
   * parse as an integer that is at least the required tier.
   */
  function HasPermission(claim: Option<string>, required: AccountIdentity): (granted: bool)
    ensures claim.None? ==> !granted
    ensures granted <==> claim.Some? && ParseInt32(claim.value).Some?
                         && ParseInt32(claim.value).value >= TierValue(required)
  {
    if claim.None? || claim.value == "" then false
    else
      match ParseInt32(claim.value)
      case None => false
      case Some(v) => v >= TierValue(required)
  }

  /** A claim that admits a tier admits every lower tier. */
  lemma PermissionIsMonotone(claim: Option<string>, low: AccountIdentity, high: AccountIdentity)
    requires TierValue(low) <= TierValue(high)
    ensures HasPermission(claim, high) ==> HasPermission(claim, low)
  {
  }

  /** The decimal spelling of a natural number, without leading zeros. */
  function DecimalString(n: nat): (s: string)
    ensures s != [] && AllDigits(s)
  {
    if n < 10 then [('0' as int + n) as char]
    else DecimalString(n / 10) + [('0' as int + n % 10) as char]
  }

  lemma {:induction false} DecimalStringValue(n: nat)
    ensures DigitsValue(DecimalString(n)) == n
  {
    var s := DecimalString(n);
    if n >= 10 {
      DecimalStringValue(n / 10);
      assert s[..|s| - 1] == DecimalString(n / 10);
    }
  }

  /** Parsing the decimal spelling of a 32-bit non-negative number gives the number back. */
  lemma ParseDecimal(n: nat)
    requires n <= MaxInt32
    ensures ParseInt32(DecimalString(n)) == Some(n)
  {
    var s := DecimalString(n);
    DigitsUntrimmed(s);
    assert IsDigit(s[0]);
    DecimalStringValue(n);
  }

  /** Trimming leaves a string of digits as it is. */
  lemma DigitsUntrimmed(s: string)
    requires s != [] && AllDigits(s)
    ensures TrimNuls(s) == s && TrimEnd(TrimStart(s)) == s
  {
    assert IsDigit(s[0]) && IsDigit(s[|s| - 1]);
    assert TrimStart(s) == s;
  }

  /** Trailing `'\0'` characters after a decimal number do not change what it parses as. */
  lemma ParseDecimalWithNuls(n: nat, nuls: string)
    requires n <= MaxInt32
    requires forall j | 0 <= j < |nuls| :: nuls[j] == '\0'
    ensures ParseInt32(DecimalString(n) + nuls) == Some(n)
  {
    var s := DecimalString(n);
    TrimNulsSuffix(s, nuls);
    ParseDecimal(n);
  }

  lemma {:induction false} TrimNulsSuffix(s: string, nuls: string)
    requires s != [] && s[|s| - 1] != '\0'
    requires forall j | 0 <= j < |nuls| :: nuls[j] == '\0'
    ensures TrimNuls(s + nuls) == TrimNuls(s) == s
  {
    if nuls != [] {
      var shorter := nuls[..|nuls| - 1];
      assert (s + nuls)[..|s + nuls| - 1] == s + shorter;
      TrimNulsSuffix(s, shorter);
    }
  }

  /** A claim holding the decimal number `n` is granted exactly the tiers at or below `n`. */
  lemma PermissionOfDecimalClaim(n: nat, required: AccountIdentity)
    requires n <= MaxInt32
    ensures HasPermission(Some(DecimalString(n)), required) <==> n >= TierValue(required)
  {
    ParseDecimal(n);
  }

  /**
   * A claim holding a character that is neither a digit, a sign, white space nor `'\0'` is
   * denied whatever the tier.
   */
  lemma NonNumericClaimDenied(claim: string, i: int, required: AccountIdentity)
    requires 0 <= i < |claim| && !IsDigit(claim[i]) && !IsNumberWhite(claim[i])
    requires claim[i] != '-' && claim[i] != '+' && claim[i] != '\0'
    ensures !HasPermission(Some(claim), required)
  {
    var u := TrimNuls(claim);
    TrimNulsKeeps(claim, i);
    var k := TrimKeepsInner(u, i);
    var t := TrimEnd(TrimStart(u));
    SignedBodyNotDigits(t, k);
    assert ParseInt32(claim).None?;
  }

  /** A trimmed claim with a non-digit, non-sign character at `k` has no all-digit body. */
  lemma SignedBodyNotDigits(t: string, k: int)
    requires 0 <= k < |t| && !IsDigit(t[k]) && t[k] != '-' && t[k] != '+'
    ensures var body := if t != [] && (t[0] == '-' || t[0] == '+') then t[1..] else t;
            !AllDigits(body)
  {
  }

  /** A character that is not number white space survives trimming. */
  lemma TrimKeepsInner(s: string, i: int) returns (k: nat)
    requires 0 <= i < |s| && !IsNumberWhite(s[i])
    ensures k < |TrimEnd(TrimStart(s))| && TrimEnd(TrimStart(s))[k] == s[i]
  {
    TrimStartKeeps(s, i);
    var t0 := TrimStart(s);
    k := i - (|s| - |t0|);
    assert t0[k] == s[i];
    TrimEndKeeps(t0, k);
  }

  lemma {:induction false} TrimStartKeeps(s: string, i: int)
    requires 0 <= i < |s| && !IsNumberWhite(s[i])
    ensures |s| - |TrimStart(s)| <= i
  {
    if s != [] && IsNumberWhite(s[0]) {
      TrimStartKeeps(s[1..], i - 1);
    }
  }

  lemma {:induction false} TrimEndKeeps(s: string, i: int)
    requires 0 <= i < |s| && !IsNumberWhite(s[i])
    ensures i < |TrimEnd(s)| && TrimEnd(s)[i] == s[i]
  {
    if s != [] && IsNumberWhite(s[|s| - 1]) {
      TrimEndKeeps(s[..|s| - 1], i);
    }
  }

  lemma {:induction false} TrimNulsKeeps(s: string, i: int)
    requires 0 <= i < |s| && s[i] != '\0'
    ensures i < |TrimNuls(s)| && TrimNuls(s)[i] == s[i]
  {
    if s != [] && s[|s| - 1] == '\0' {
      TrimNulsKeeps(s[..|s| - 1], i);
    }
  }

  /** `unchecked` 32-bit wrap-around of an integer. */
  function Wrap32(v: int): (r: int)
    ensures MinInt32 <= r <= MaxInt32
    ensures MinInt32 <= v <= MaxInt32 ==> r == v
  {
    (v - MinInt32) % 0x1_0000_0000 + MinInt32
  }

  /** C#'s `/` on `int`: the quotient rounded toward zero. */
  function TruncDiv(n: int, d: int): int
    requires d > 0
  {
    if n >= 0 then n / d else -((-n) / d)
  }

  /**
   * `TotalPages => (TotalCount + PageSize - 1) / PageSize` on 32-bit `int`s: with a non-negative
   * count and a positive page size whose sum does not overflow, this is the ceiling of
   * count / size, the least number of pages that holds every row. When the sum overflows it
   * wraps to a negative number and the page count is not positive.
   */
  function TotalPages(totalCount: nat, pageSize: int): (pages: int)
    requires totalCount <= MaxInt32 && 0 < pageSize <= MaxInt32
    ensures totalCount + pageSize - 1 <= MaxInt32 ==>
              && pages >= 0
              && pages * pageSize >= totalCount
              && ((pages - 1) * pageSize < totalCount || pages == 0)
              && (pages == 0 <==> totalCount == 0)
    ensures totalCount + pageSize - 1 > MaxInt32 ==> pages <= 0
  {
    var n := Wrap32(totalCount + pageSize - 1);
    if totalCount + pageSize - 1 <= MaxInt32 then
      CeilingDivision(totalCount, pageSize);
      TruncDiv(n, pageSize)
    else
      WrapOverflow(totalCount + pageSize - 1);
      TruncDiv(n, pageSize)
  }

  /** A sum of two non-negative 32-bit numbers that overflows wraps to a negative number. */
  lemma WrapOverflow(v: int)
    requires MaxInt32 < v <= 2 * MaxInt32
    ensures Wrap32(v) == v - 0x1_0000_0000 && Wrap32(v) < 0
  {
  }

  /** `(count + size - 1) / size` is the least page count whose pages hold `count` rows. */
  lemma CeilingDivision(count: nat, size: int)
    requires size > 0
    ensures var q := (count + size - 1) / size;
            && q >= 0
            && q * size >= count
            && ((q - 1) * size < count || q == 0)
            && (q == 0 <==> count == 0)
  {
  }
}
