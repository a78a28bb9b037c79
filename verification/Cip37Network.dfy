/** Network numbers and their texts (libcfxcore/types/cfxaddress/network_type.cpp). */
module Cip37Network {
  import opened Numbers

  const UINT32_COUNT: nat := 0x1_0000_0000
  const INT_MAX: int := 0x7fff_ffff

  predicate IsDigit(c: char) {
    '0' <= c <= '9'
  }

  /** `isspace` in the C locale. */
  predicate IsSpace(c: char) {
    c == ' ' || 9 as char <= c <= 13 as char
  }

  function DigitChar(d: nat): (c: char)
    requires d < 10
    ensures IsDigit(c)
  {
    ('0' as int + d) as char
  }

  /** `%d` of a number that is not negative. */
  function Decimal(n: nat): (r: string)
    ensures r != [] && forall i :: 0 <= i < |r| ==> IsDigit(r[i])
  {
    (if n < 10 then [] else Decimal(n / 10)) + [DigitChar(n % 10)]
  }

  function DigitOf(c: char): (d: nat)
    requires IsDigit(c)
    ensures d < 10
  {
    c as int - '0' as int
  }

  /** The number a string of digits writes. */
  function DecimalValue(s: string): nat
    requires forall i :: 0 <= i < |s| ==> IsDigit(s[i])
  {
    if s == [] then 0 else DecimalValue(s[..|s| - 1]) * 10 + DigitOf(s[|s| - 1])
  }

  /** How many digits a text begins with. */
  function DigitRun(s: string): (n: nat)
    ensures n <= |s| && (forall i :: 0 <= i < n ==> IsDigit(s[i])) && (n < |s| ==> !IsDigit(s[n]))
  {
    if s == [] || !IsDigit(s[0]) then 0 else 1 + DigitRun(s[1..])
  }

  /** `std::stoi`, or none where it throws: white space, a sign, digits, whatever follows; the number must be an int. */
  function Stoi(s: string): Option<int> {
    if s != [] && IsSpace(s[0]) then Stoi(s[1..])
    else
      var signed := s != [] && (s[0] == '-' || s[0] == '+');
      var t := if signed then s[1..] else s;
      var n := DigitRun(t);
      var v: int := DecimalValue(t[..n]);
      var i: int := if signed && s[0] == '-' then -v else v;
      if n == 0 || !(-INT_MAX - 1 <= i <= INT_MAX) then None else Some(i)
  }

  /** The conversion of a uint32_t to int, which `%d` makes, and back. */
  function AsInt(id: nat): int
    requires id < UINT32_COUNT
  {
    if id <= INT_MAX then id else id - UINT32_COUNT
  }

  function AsUint32(i: int): nat
    requires -INT_MAX - 1 <= i <= INT_MAX
  {
    if i >= 0 then i else i + UINT32_COUNT
  }

  function PrintedInt(i: int): string {
    if i >= 0 then Decimal(i) else "-" + Decimal(-i)
  }

  /** The constructor from a number. */
  function NetworkText(id: nat): string
    requires id < UINT32_COUNT
  {
    if id == 1029 then "cfx" else if id == 1 then "cfxtest" else "net" + PrintedInt(AsInt(id))
  }

  /** `ToNetworkID`, or none where it throws. */
  function NetworkNumber(text: string): (r: Option<nat>)
    ensures r.Some? ==> r.value < UINT32_COUNT
  {
    if text == "cfx" then Some(1029)
    else if text == "cfxtest" then Some(1)
    else if |text| < 3 || text[..3] != "net" then Some(0)
    else
      StoiRange(text[3..]);
      match Stoi(text[3..])
      case None => None
      case Some(i) => Some(AsUint32(i))
  }

  lemma {:induction false} StoiRange(s: string)
    ensures Stoi(s).Some? ==> -INT_MAX - 1 <= Stoi(s).value <= INT_MAX
    decreases |s|
  {
    if s != [] && IsSpace(s[0]) {
      StoiRange(s[1..]);
    }
  }

  // ------------------------------------------------------------------ there and back

  lemma {:induction false} DecimalReads(n: nat)
    ensures DecimalValue(Decimal(n)) == n
    decreases n
  {
    var r := Decimal(n);
    if n < 10 {
      assert r[..|r| - 1] == [];
    } else {
      DecimalReads(n / 10);
      assert r[..|r| - 1] == Decimal(n / 10);
    }
  }

  lemma {:induction false} AllDigits(s: string)
    requires forall i :: 0 <= i < |s| ==> IsDigit(s[i])
    ensures DigitRun(s) == |s|
    decreases |s|
  {
    if s != [] {
      AllDigits(s[1..]);
    }
  }

  lemma StoiOfPrinted(i: int)
    requires -INT_MAX - 1 <= i <= INT_MAX
    ensures Stoi(PrintedInt(i)) == Some(i)
  {
    hide Decimal, DecimalValue, DigitRun;
    var n := if i >= 0 then i else -i;
    var s, t := PrintedInt(i), Decimal(n);
    AllDigits(t);
    DecimalReads(n);
    assert t[..|t|] == t && (i < 0 ==> s[1..] == t && s[0] == '-');
    assert IsDigit(t[0]);
  }

  /** `std::stoi`, part by part: blanks, a sign or none, digits, and whatever does not go on with a digit. */
  lemma {:induction false} StoiReads(blanks: string, sign: string, digits: string, rest: string)
    requires forall i :: 0 <= i < |blanks| ==> blanks[i] as int in {9, 10, 11, 12, 13, 32}
    requires sign in {"", "+", "-"}
    requires digits != [] && (forall i :: 0 <= i < |digits| ==> '0' <= digits[i] <= '9')
    requires rest != [] ==> !('0' <= rest[0] <= '9')
    ensures var v: int := DecimalValue(digits); var i := if sign == "-" then -v else v;
            Stoi(blanks + sign + digits + rest) == if -2147483648 <= i <= 2147483647 then Some(i) else None
    decreases |blanks|
  {
    hide DecimalValue, DigitRun;
    var s := blanks + sign + digits + rest;
    if blanks != [] {
      assert s[0] == blanks[0] && s[1..] == blanks[1..] + sign + digits + rest;
      StoiReads(blanks[1..], sign, digits, rest);
    } else {
      assert s == sign + (digits + rest);
      StoiSigned(sign, digits, rest);
    }
  }

  lemma StoiSigned(sign: string, digits: string, rest: string)
    requires sign in {"", "+", "-"}
    requires digits != [] && (forall i :: 0 <= i < |digits| ==> IsDigit(digits[i]))
    requires rest != [] ==> !IsDigit(rest[0])
    ensures var v: int := DecimalValue(digits); var i := if sign == "-" then -v else v;
            Stoi(sign + (digits + rest)) == if -INT_MAX - 1 <= i <= INT_MAX then Some(i) else None
  {
    hide DecimalValue, DigitRun;
    var t := digits + rest;
    var s := sign + t;
    DigitsEnd(digits, rest);
    assert t[0] == digits[0] && t[..|digits|] == digits;
    if sign == "" {
      assert s == t;
    } else {
      assert s[0] == sign[0] && s[1..] == t;
    }
  }

  lemma {:induction false} DigitsEnd(digits: string, rest: string)
    requires forall i :: 0 <= i < |digits| ==> IsDigit(digits[i])
    requires rest != [] ==> !IsDigit(rest[0])
    ensures DigitRun(digits + rest) == |digits|
    decreases |digits|
  {
    var s := digits + rest;
    if digits != [] {
      assert s[1..] == digits[1..] + rest;
      DigitsEnd(digits[1..], rest);
    } else {
      assert s == rest;
    }
  }

  /** Nothing else is a number: without a digit behind blanks and sign it throws. */
  lemma {:induction false} StoiThrows(blanks: string, sign: string, rest: string)
    requires forall i :: 0 <= i < |blanks| ==> blanks[i] as int in {9, 10, 11, 12, 13, 32}
    requires sign in {"", "+", "-"} && (rest != [] ==> !('0' <= rest[0] <= '9'))
    requires sign == "" && rest != [] ==> rest[0] as int !in {9, 10, 11, 12, 13, 32} && rest[0] != '+' && rest[0] != '-'
    ensures Stoi(blanks + sign + rest) == None
    decreases |blanks|
  {
    var s := blanks + sign + rest;
    if blanks != [] {
      assert s[0] == blanks[0] && s[1..] == blanks[1..] + sign + rest;
      StoiThrows(blanks[1..], sign, rest);
    } else {
      assert s == sign + rest;
      if sign == "" {
        assert s == rest;
      } else {
        assert s[0] == sign[0] && s[1..] == rest;
      }
    }
  }

  /** "net" and a number reads as the number, 1029 and 1 included. */
  lemma NetReads(id: nat)
    requires id < UINT32_COUNT
    ensures NetworkNumber("net" + PrintedInt(AsInt(id))) == Some(id)
  {
    hide Stoi, Decimal;
    var printed := PrintedInt(AsInt(id));
    var t := "net" + printed;
    assert t[..3] == "net" && t[3..] == printed && t[0] == 'n';
    StoiOfPrinted(AsInt(id));
  }

  /** Every network number is read back from its text, which keeps to lower case and has no separator. */
  lemma NumberThereAndBack(id: nat)
    requires id < UINT32_COUNT
    ensures NetworkNumber(NetworkText(id)) == Some(id)
    ensures var t := NetworkText(id); forall i :: 0 <= i < |t| ==> t[i] != ':' && !('A' <= t[i] <= 'Z')
  {
    hide NetworkNumber, Decimal;
    if id != 1029 && id != 1 {
      NetReads(id);
    } else {
      KnownNetworks();
    }
  }

  lemma KnownNetworks()
    ensures NetworkNumber("cfx") == Some(1029) && NetworkNumber("cfxtest") == Some(1)
  {
  }

  lemma NotEveryTextReads()
    ensures NetworkNumber("netx") == None
  {
    assert "netx"[3..] == "x" && DigitRun("x") == 0;
  }

  /** The number does not tell the text: any text that does not begin with "net" reads as 0, and "netx" does not read at all. */
  lemma NumbersAreShared()
    ensures NetworkNumber("abc") == Some(0) == NetworkNumber("net0") && NetworkNumber("netx") == None
  {
    NotEveryTextReads();
    assert "abc"[0] != "net"[0] && "abc"[..3] == "abc";
    ReadsAsNought("abc");
    assert PrintedInt(0) == "0" && "net" + "0" == "net0";
    hide NetworkNumber;
    NetReads(0);
  }

  /** The two networks with a name, and how other numbers print. */
  lemma TextsAre(id: nat)
    requires id < UINT32_COUNT
    ensures NetworkText(1029) == "cfx" && NetworkText(1) == "cfxtest"
    ensures id != 1029 && id != 1 ==> |NetworkText(id)| > 3 && NetworkText(id)[..3] == "net"
    ensures NetworkText(1030) == "net1030" && NetworkText(4294967295) == "net-1"
  {
    assert Decimal(10) == "10";
    assert Decimal(103) == "103";
    assert Decimal(1030) == "1030";
    assert AsInt(4294967295) == -1 && PrintedInt(-1) == "-1";
    hide Decimal;
    if id != 1029 && id != 1 {
      assert PrintedInt(AsInt(id)) != [];
      assert ("net" + PrintedInt(AsInt(id)))[..3] == "net";
    }
  }

  lemma ReadsAsNought(text: string)
    requires |text| < 3 || text[..3] != "net"
    requires text != "cfx" && text != "cfxtest"
    ensures NetworkNumber(text) == Some(0)
  {
  }
}
