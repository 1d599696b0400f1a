/** The integer query parameters: JavaScript `parseInt(s, 10)`, the `||`
    default, the `Math.max(1, Math.min(..., hi))` clamps of the audit-log
    queries (Backend/models/AuditLog.js) and of `ButtonStats.getMostPlayed`,
    and the audit-log query selection of the admin routes. */
module Limits {
  import opened Rows
  import FileUtils

  predicate IsDigit(c: char) {
    '0' <= c <= '9'
  }

  predicate AllDigits(s: string) {
    forall i :: 0 <= i < |s| ==> IsDigit(s[i])
  }

  /** The longest prefix of decimal digits. */
  function DigitsPrefix(s: string): (r: string)
    ensures |r| <= |s| && r == s[..|r|]
    ensures AllDigits(r)
    ensures |r| < |s| ==> !IsDigit(s[|r|])
    decreases |s|
  {
    if s != [] && IsDigit(s[0]) then
      var t := DigitsPrefix(s[1..]);
      var r := [s[0]] + t;
      assert r[1..] == t;
      assert r == s[..|r|] by { assert s[1..][..|t|] == s[1..|r|]; }
      r
    else []
  }

  /** The value of a string of decimal digits. */
  function DigitsValue(d: string): nat
    requires AllDigits(d)
    decreases |d|
  {
    if d == [] then 0
    else
      var c := d[|d| - 1];
      assert IsDigit(c);
      DigitsValue(d[..|d| - 1]) * 10 + (c as int - '0' as int)
  }

  /** `parseInt(s, 10)`: skip leading white space (the same set as `trim`),
      take an optional sign, then the longest run of digits; no digit is
      NaN, written `None`. Minus zero is written 0, which every use below
      treats as the falsy value it is. */
  function ParseInt(s: string): (r: Option<int>)
  {
    ParseTrimmed(FileUtils.TrimStart(s))
  }

  /** What follows an optional leading sign. */
  function Unsigned(t: string): (u: string)
    ensures |u| <= |t|
  {
    if t != [] && (t[0] == '-' || t[0] == '+') then t[1..] else t
  }

  /** The longest run of digits at the head of `u`, as a number; `None`
      when there is none. */
  function ParseUnsigned(u: string): (r: Option<nat>)
    ensures r.None? <==> DigitsPrefix(u) == []
  {
    var z := DigitsPrefix(u);
    if z == [] then None else Some(DigitsValue(z))
  }

  /** `parseInt` once the leading white space is gone. */
  function ParseTrimmed(t: string): (r: Option<int>)
  {
    match ParseUnsigned(Unsigned(t))
    case None => None
    case Some(v) => if t[0] == '-' then Some(-(v as int)) else Some(v)
  }

  /** The decimal rendering of a number, as `String(n)` writes it. */
  function NatDigits(n: nat): (r: string)
    ensures r != [] && AllDigits(r)
    decreases n
  {
    if n < 10 then [('0' as int + n) as char]
    else
      var h := NatDigits(n / 10);
      var c := ('0' as int + n % 10) as char;
      assert forall i :: 0 <= i < |h| ==> (h + [c])[i] == h[i];
      h + [c]
  }

  function Decimal(n: int): string {
    if n < 0 then "-" + NatDigits(-n) else NatDigits(n)
  }

  lemma {:induction false} NatDigitsValue(n: nat)
    ensures DigitsValue(NatDigits(n)) == n
    decreases n
  {
    if n >= 10 {
      NatDigitsValue(n / 10);
      var d := NatDigits(n);
      assert d[..|d| - 1] == NatDigits(n / 10);
    }
  }

  lemma {:induction false} DigitsPrefixOfDigits(x: string, y: string)
    requires AllDigits(x)
    requires y == [] || !IsDigit(y[0])
    ensures DigitsPrefix(x + y) == x
    decreases |x|
  {
    if x == [] {
      assert x + y == y;
    } else {
      var s := x + y;
      assert s[0] == x[0];
      assert s[1..] == x[1..] + y;
      DigitsPrefixOfDigits(x[1..], y);
      assert [x[0]] + x[1..] == x;
    }
  }

  /** A string that starts with a digit or a sign parses from its first
      character: there is no white space to skip. */
  lemma ParseFromStart(s: string)
    requires s != [] && (IsDigit(s[0]) || s[0] == '-' || s[0] == '+')
    ensures FileUtils.TrimStart(s) == s
  {
    if s[0] == '+' {
      assert !FileUtils.JsSpace('+');
    } else {
      FileUtils.SafeIsNotSpace(s[0]);
    }
  }

  /** Digits followed by something that is not a digit read as their
      value. */
  lemma ParseDigits(d: string, junk: string)
    requires d != [] && AllDigits(d)
    requires junk == [] || !IsDigit(junk[0])
    ensures ParseUnsigned(d + junk) == Some(DigitsValue(d))
  {
    DigitsPrefixOfDigits(d, junk);
  }

  /** What follows a minus sign is read unsigned and negated. */
  lemma ParseNegated(rest: string)
    ensures ParseTrimmed("-" + rest) == match ParseUnsigned(rest)
      case None => None
      case Some(v) => Some(-(v as int))
  {
    var t := "-" + rest;
    assert t[0] == '-' && t[1..] == rest;
  }

  /** Without a sign the whole string is read unsigned. */
  lemma ParseUnsignedStart(t: string)
    requires t != [] && IsDigit(t[0])
    ensures ParseTrimmed(t) == match ParseUnsigned(t)
      case None => None
      case Some(v) => Some(v as int)
  {
  }

  /** A minus sign followed by a string that reads as `v` reads as `-v`. */
  lemma ParseMinus(rest: string, v: nat)
    requires ParseUnsigned(rest) == Some(v)
    ensures ParseInt("-" + rest) == Some(-(v as int))
  {
    ParseFromStart("-" + rest);
    ParseNegated(rest);
  }

  /** A string that starts with a digit and reads as `v` unsigned reads as
      `v`. */
  lemma ParsePlain(t: string, v: nat)
    requires t != [] && IsDigit(t[0])
    requires ParseUnsigned(t) == Some(v)
    ensures ParseInt(t) == Some(v)
  {
    ParseFromStart(t);
    ParseUnsignedStart(t);
  }

  lemma ParseNonNegative(n: nat, junk: string)
    requires junk == [] || !IsDigit(junk[0])
    ensures ParseInt(Decimal(n) + junk) == Some(n)
  {
    var d := NatDigits(n);
    NatDigitsValue(n);
    ParseDigits(d, junk);
    assert (d + junk)[0] == d[0];
    ParsePlain(d + junk, n);
  }

  lemma ParseNegative(n: int, junk: string)
    requires n < 0
    requires junk == [] || !IsDigit(junk[0])
    ensures ParseInt(Decimal(n) + junk) == Some(n)
  {
    var d := NatDigits(-n);
    NatDigitsValue(-n);
    ParseDigits(d, junk);
    ParseMinus(d + junk, -n);
    SignJoin(d, junk);
  }

  lemma SignJoin(d: string, junk: string)
    ensures ("-" + d) + junk == "-" + (d + junk)
  {
  }

  /** `parseInt` reads back what `String(n)` writes, and it stops at the
      first character that is not a digit: "20abc" is 20. */
  lemma ParseDecimal(n: int, junk: string)
    requires junk == [] || !IsDigit(junk[0])
    ensures ParseInt(Decimal(n) + junk) == Some(n)
  {
    if n < 0 {
      ParseNegative(n, junk);
    } else {
      ParseNonNegative(n, junk);
    }
  }

  /** Leading white space is ignored. */
  lemma ParseSkipsSpace(ws: string, s: string)
    requires FileUtils.AllJsSpace(ws)
    ensures ParseInt(ws + s) == ParseInt(s)
  {
    FileUtils.TrimStartSkip(ws, s);
  }

  predicate IsHexDigit(c: char) {
    IsDigit(c) || 'a' <= c <= 'f' || 'A' <= c <= 'F'
  }

  function HexDigitValue(c: char): (v: nat)
    requires IsHexDigit(c)
    ensures v < 16
  {
    if IsDigit(c) then c as int - '0' as int
    else if 'a' <= c <= 'f' then c as int - 'a' as int + 10
    else c as int - 'A' as int + 10
  }

  /** The longest prefix of hexadecimal digits. */
  function HexPrefix(s: string): (r: string)
    ensures |r| <= |s| && r == s[..|r|]
    ensures forall i :: 0 <= i < |r| ==> IsHexDigit(r[i])
    ensures |r| < |s| ==> !IsHexDigit(s[|r|])
    decreases |s|
  {
    if s != [] && IsHexDigit(s[0]) then
      var t := HexPrefix(s[1..]);
      var r := [s[0]] + t;
      assert r[1..] == t;
      assert r == s[..|r|] by { assert s[1..][..|t|] == s[1..|r|]; }
      r
    else []
  }

  function HexValue(d: string): nat
    requires forall i :: 0 <= i < |d| ==> IsHexDigit(d[i])
    decreases |d|
  {
    if d == [] then 0
    else HexValue(d[..|d| - 1]) * 16 + HexDigitValue(d[|d| - 1])
  }

  /** A "0x" or "0X" at the head of the unsigned part. */
  predicate HexMarked(u: string) {
    |u| >= 2 && u[0] == '0' && (u[1] == 'x' || u[1] == 'X')
  }

  /** `parseInt(s)` with no radix, as the route handlers call it: a "0x" or
      "0X" after the sign selects base 16 (and then needs at least one hex
      digit), anything else is read in base 10 as `ParseInt` does. */
  function ParseIntNoRadix(s: string): (r: Option<int>)
    ensures !HexMarked(Unsigned(FileUtils.TrimStart(s))) ==> r == ParseInt(s)
  {
    var t := FileUtils.TrimStart(s);
    var unsigned := Unsigned(t);
    if HexMarked(unsigned) then
      var h := HexPrefix(unsigned[2..]);
      if h == [] then None
      else if t[0] == '-' then Some(-(HexValue(h) as int))
      else Some(HexValue(h))
    else ParseTrimmed(t)
  }

  /** Without the hexadecimal prefix both parses agree, so a written number
      reads back as itself. */
  lemma NoRadixDecimal(n: int)
    ensures ParseIntNoRadix(Decimal(n)) == Some(n)
  {
    var s := Decimal(n);
    var d := NatDigits(if n < 0 then -n else n);
    assert s[0] == (if n < 0 then '-' else d[0]);
    ParseFromStart(s);
    assert Unsigned(s) == d by {
      if n < 0 { assert s[1..] == d; }
    }
    assert |d| >= 2 ==> IsDigit(d[1]);
    ParseDecimal(n, "");
    assert s + "" == s;
  }

  lemma HexOneF()
    ensures HexPrefix("1f") == "1f"
    ensures HexValue("1f") == 31
  {
    assert "1f"[1..] == "f";
    assert HexPrefix("f") == "f" by { assert "f"[1..] == []; }
    assert "1f"[..1] == "1";
    assert "1"[..0] == [];
  }

  /** "0x1f" reads as 31 without a radix, where `parseInt(s, 10)` stops at
      the "x" and gives 0. */
  lemma NoRadixHex()
    ensures ParseIntNoRadix("0x1f") == Some(31)
    ensures ParseInt("0x1f") == Some(0)
  {
    var x := "0x1f";
    ParseFromStart(x);
    assert Unsigned(x) == x;
    assert x[2..] == "1f";
    HexOneF();
    assert x == "0" + "x1f";
    ParseDigits("0", "x1f");
    ParseUnsignedStart(x);
    assert DigitsValue("0") == 0 by { assert "0"[..0] == []; }
  }

  /** `x || d` for a parsed integer: NaN and 0 are falsy. */
  function OrDefault(v: Option<int>, d: int): (r: int)
    ensures (v.None? || v.value == 0) ==> r == d
    ensures (v.Some? && v.value != 0) ==> r == v.value
  {
    if v.None? || v.value == 0 then d else v.value
  }

  /** `Math.max(1, Math.min(parseInt(raw, 10) || d, hi))`. */
  function ClampLimit(raw: string, d: int, hi: int): (r: int)
    requires 1 <= d <= hi
    ensures 1 <= r <= hi
    ensures (ParseInt(raw).None? || ParseInt(raw) == Some(0)) ==> r == d
    ensures ParseInt(raw).Some? && ParseInt(raw).value < 0 ==> r == 1
    ensures ParseInt(raw).Some? && 1 <= ParseInt(raw).value <= hi ==> r == ParseInt(raw).value
    ensures ParseInt(raw).Some? && ParseInt(raw).value > hi ==> r == hi
  {
    var v := OrDefault(ParseInt(raw), d);
    var m := if v < hi then v else hi;
    if 1 < m then m else 1
  }

  /** `getAll` and `getByDateRange`: [1, 1000], default 100. */
  function AuditAllLimit(raw: string): (r: int)
    ensures 1 <= r <= 1000
  {
    ClampLimit(raw, 100, 1000)
  }

  /** `getByUser`, `getByAction` and `getFailedLogins`: [1, 500], default 50. */
  function AuditUserLimit(raw: string): (r: int)
    ensures 1 <= r <= 500
  {
    ClampLimit(raw, 50, 500)
  }

  /** `getMostPlayed`: [1, 1000], default 20. */
  function MostPlayedLimit(raw: string): (r: int)
    ensures 1 <= r <= 1000
  {
    ClampLimit(raw, 20, 1000)
  }

  /** `Math.max(0, parseInt(raw, 10) || 0)`: never negative, 0 when
      unparseable, the parsed value otherwise. */
  function AuditOffset(raw: string): (r: int)
    ensures r >= 0
    ensures ParseInt(raw).None? ==> r == 0
    ensures ParseInt(raw).Some? ==> r == (if ParseInt(raw).value < 0 then 0 else ParseInt(raw).value)
  {
    var v := OrDefault(ParseInt(raw), 0);
    if 0 < v then v else 0
  }

  /** Written values are read back unchanged when in range and clamped
      otherwise. */
  lemma ClampDecimal(n: int)
    ensures AuditAllLimit(Decimal(n)) == (if n == 0 then 100 else if n < 1 then 1 else if n > 1000 then 1000 else n)
    ensures AuditUserLimit(Decimal(n)) == (if n == 0 then 50 else if n < 1 then 1 else if n > 500 then 500 else n)
    ensures MostPlayedLimit(Decimal(n)) == (if n == 0 then 20 else if n < 1 then 1 else if n > 1000 then 1000 else n)
    ensures AuditOffset(Decimal(n)) == (if n < 0 then 0 else n)
  {
    ParseDecimal(n, "");
    assert Decimal(n) + "" == Decimal(n);
  }

  /** Which audit-log query `GET /api/admin/audit-logs` runs. */
  datatype AuditQuery =
    | ByAction(action: string, limit: int)
    | ByUser(userId: string, limit: int)
    | ByDateRange(startDate: string, endDate: string, limit: int)
    | AllLogs(limit: int, offset: int)

  /** The route destructures `limit = 100` and `offset = 0`, so an absent
      limit reaches every query as 100; then `action`, `userId`, both
      dates, and finally everything, in that order of priority. */
  function SelectAuditQuery(action: Option<string>, userId: Option<string>,
                            startDate: Option<string>, endDate: Option<string>,
                            limit: Option<string>, offset: Option<string>): (r: AuditQuery)
    ensures r.ByAction? <==> Truthy(action)
    ensures r.ByUser? <==> !Truthy(action) && Truthy(userId)
    ensures r.ByDateRange? <==> !Truthy(action) && !Truthy(userId) && Truthy(startDate) && Truthy(endDate)
    ensures r.AllLogs? <==> !Truthy(action) && !Truthy(userId) && !(Truthy(startDate) && Truthy(endDate))
    ensures (r.ByAction? || r.ByUser?) ==> 1 <= r.limit <= 500
    ensures (r.ByDateRange? || r.AllLogs?) ==> 1 <= r.limit <= 1000
    ensures r.AllLogs? ==> r.offset >= 0
  {
    var lim := if limit.Some? then limit.value else "100";
    var off := if offset.Some? then offset.value else "0";
    if Truthy(action) then ByAction(action.value, AuditUserLimit(lim))
    else if Truthy(userId) then ByUser(userId.value, AuditUserLimit(lim))
    else if Truthy(startDate) && Truthy(endDate) then
      ByDateRange(startDate.value, endDate.value, AuditAllLimit(lim))
    else AllLogs(AuditAllLimit(lim), AuditOffset(off))
  }

  /** Because the route supplies 100 for an absent limit, the default of 50
      in `getByAction`/`getByUser` never applies from this route: an
      action filter without a limit asks for 100 rows. */
  lemma AbsentLimitIsHundred(action: string)
    requires action != ""
    ensures SelectAuditQuery(Some(action), None, None, None, None, None) == ByAction(action, 100)
  {
    var one := NatDigits(1);
    var ten := NatDigits(10);
    var hundred := NatDigits(100);
    assert one == ['1'];
    assert ten == one + ['0'];
    assert hundred == ten + ['0'];
    assert hundred == "100";
    ParseDecimal(100, "");
    assert hundred + "" == hundred;
  }
}
