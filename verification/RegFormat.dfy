/** What the writer and the reader of .reg text share: value types, blanks, hexadecimal numbers
    (vfs/registry_reg_export.go and vfs/registry_reg_import.go). */
module RegFormat {
  import opened Base

  const REG_SZ: nat := 1
  const REG_BINARY: nat := 3
  const REG_DWORD: nat := 4

  const HEADER: string := "Windows Registry Editor Version 5.00"

  /** The width a hex value is wrapped to. */
  const LINE_WIDTH: nat := 80

  /** A value type or a dword: 32 bits. */
  type UInt32 = n: nat | n < 0x1_0000_0000

  /** unicode.IsSpace, what strings.TrimSpace cuts. */
  predicate IsSpace(c: char) {
    var v := c as int;
    0x09 <= v <= 0x0D || v == 0x20 || v == 0x85 || v == 0xA0 || v == 0x1680 || 0x2000 <= v <= 0x200A
    || v == 0x2028 || v == 0x2029 || v == 0x202F || v == 0x205F || v == 0x3000
  }

  /** The cutset " \t". */
  predicate IsBlank(c: char) { c == ' ' || c == '\t' }

  function TrimLeft(s: string, cut: char -> bool): string {
    if s != "" && cut(s[0]) then TrimLeft(s[1..], cut) else s
  }

  function TrimRight(s: string, cut: char -> bool): string {
    if s != "" && cut(s[|s| - 1]) then TrimRight(s[..|s| - 1], cut) else s
  }

  function TrimSpace(s: string): string {
    TrimRight(TrimLeft(s, IsSpace), IsSpace)
  }

  predicate HasSuffix(s: string, suffix: string) {
    |suffix| <= |s| && s[|s| - |suffix|..] == suffix
  }

  /** strings.IndexByte, with the length of s when c does not occur. */
  function IndexOf(s: string, c: char): (i: nat)
    ensures i <= |s|
    ensures i < |s| ==> s[i] == c
    ensures c !in s[..i]
  {
    if s == "" || s[0] == c then 0
    else
      var i := 1 + IndexOf(s[1..], c);
      assert s[..i] == [s[0]] + s[1..][..i - 1];
      i
  }

  /** strings.ToLower as far as the reader depends on it: the keywords and digits it compares with are ASCII, and
      no other character has one of their letters as its lower case. */
  function LowerChar(c: char): char {
    if 'A' <= c <= 'Z' then (c as int + 32) as char else c
  }

  function Lower(s: string): (l: string)
    ensures |l| == |s|
  {
    seq(|s|, i requires 0 <= i < |s| => LowerChar(s[i]))
  }

  // ----- hexadecimal numbers

  function HexDigit(n: nat): char
    requires n < 16
  {
    if n < 10 then ('0' as int + n) as char else ('a' as int + n - 10) as char
  }

  function DigitValue(c: char): (r: Option<nat>)
    ensures r.Some? ==> r.value < 16
  {
    if '0' <= c <= '9' then Some(c as int - '0' as int)
    else if 'a' <= c <= 'f' then Some(c as int - 'a' as int + 10)
    else if 'A' <= c <= 'F' then Some(c as int - 'A' as int + 10)
    else None
  }

  /** %x */
  function HexNumber(n: nat): (s: string)
    ensures s != ""
  {
    if n < 16 then [HexDigit(n)] else HexNumber(n / 16) + [HexDigit(n % 16)]
  }

  /** %0wx for numbers of at most w digits. */
  function HexPadded(n: nat, width: nat): (s: string)
    ensures |s| == width
  {
    if width == 0 then "" else HexPadded(n / 16, width - 1) + [HexDigit(n % 16)]
  }

  function Power16(e: nat): nat {
    if e == 0 then 1 else 16 * Power16(e - 1)
  }

  /** The number the digits spell, in either case. */
  function HexValue(s: string): Option<nat> {
    if s == "" then Some(0)
    else
      match (HexValue(s[..|s| - 1]), DigitValue(s[|s| - 1]))
      case (Some(high), Some(low)) => Some(16 * high + low)
      case _ => None
  }

  /** strconv.ParseUint(s, 16, 32) */
  function ParseUint32(s: string): Option<UInt32> {
    match HexValue(s)
    case Some(v) => if s == "" || v >= 0x1_0000_0000 then None else Some(v)
    case None => None
  }

  predicate IsHexDigits(s: string) {
    forall i :: 0 <= i < |s| ==> '0' <= s[i] <= '9' || 'a' <= s[i] <= 'f'
  }

  lemma {:induction false} HexNumberValue(n: nat)
    ensures HexValue(HexNumber(n)) == Some(n) && IsHexDigits(HexNumber(n))
  {
    var s := HexNumber(n);
    if n < 16 {
      assert s[..|s| - 1] == "";
    } else {
      HexNumberValue(n / 16);
      assert s[..|s| - 1] == HexNumber(n / 16);
    }
  }

  lemma {:induction false} HexPaddedValue(n: nat, width: nat)
    requires n < Power16(width)
    ensures HexValue(HexPadded(n, width)) == Some(n) && IsHexDigits(HexPadded(n, width))
  {
    hide HexValue;
    if width == 0 {
      NoDigits();
    } else {
      var high := Power16(width - 1);
      assert n < 16 * high;
      assert n / 16 < high && n == 16 * (n / 16) + n % 16;
      HexPaddedValue(n / 16, width - 1);
      HexSnoc(HexPadded(n / 16, width - 1), n / 16, n % 16);
    }
  }

  lemma NoDigits()
    ensures HexValue("") == Some(0)
  {
  }

  lemma {:induction false} HexSnoc(s: string, high: nat, low: nat)
    requires HexValue(s) == Some(high) && low < 16 && IsHexDigits(s)
    ensures HexValue(s + [HexDigit(low)]) == Some(16 * high + low) && IsHexDigits(s + [HexDigit(low)])
  {
    assert (s + [HexDigit(low)])[..|s|] == s;
  }

  lemma TrimSpaceStop(s: string)
    requires s == "" || (!IsSpace(s[0]) && !IsSpace(s[|s| - 1]))
    ensures TrimSpace(s) == s
  {
  }

  lemma {:induction false} TrimMember(s: string, cut: char -> bool, c: char)
    requires c !in s
    ensures c !in TrimLeft(s, cut) && c !in TrimRight(s, cut)
    decreases |s|
  {
    if s != "" {
      TrimMember(s[1..], cut, c);
      TrimMember(s[..|s| - 1], cut, c);
    }
  }
}
