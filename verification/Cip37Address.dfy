/** Addresses and their base32 text (libcfxcore/types/cfxaddress/address.cpp). A network is the text that stands before an
    address. */
module Cip37Address {
  import opened Numbers
  import opened Cip37Convert
  import Cip37Polymod
  import Cip37Checksum
  import opened Cip37Text
  import opened Cip37Network

  datatype AddressType = Null | Builtin | User | Contract | Invalid {
    function Text(): string {
      match this
      case Null => "type.null"
      case Builtin => "type.builtin"
      case User => "type.user"
      case Contract => "type.contract"
      case Invalid => "type.invalid"
    }
  }

  /** CalcAddressType. */
  function TypeOf(hex: seq<byte>): AddressType
    requires hex != []
  {
    if |hex| == 20 && Cip37Checksum.AllZero(hex) then Null
    else
      var high := hex[0] / 16;
      if high == 0 then Builtin else if high == 1 then User else if high == 8 then Contract else Invalid
  }

  /** The type and its text, for every first byte. */
  lemma TypeIs(hex: seq<byte>)
    requires hex != []
    ensures (|hex| == 20 && forall i :: 0 <= i < 20 ==> hex[i] == 0) ==> TypeOf(hex).Text() == "type.null"
    ensures !(|hex| == 20 && forall i :: 0 <= i < 20 ==> hex[i] == 0) ==>
              TypeOf(hex).Text() == if hex[0] <= 0x0f then "type.builtin" else if 0x10 <= hex[0] <= 0x1f then "type.user"
                                    else if 0x80 <= hex[0] <= 0x8f then "type.contract" else "type.invalid"
  {
    var high := hex[0] / 16;
    assert high == 0 <==> hex[0] <= 0x0f;
    assert high == 1 <==> 0x10 <= hex[0] <= 0x1f;
    assert high == 8 <==> 0x80 <= hex[0] <= 0x8f;
  }

  /** The sizes that have a version byte of their own. */
  lemma VersionsAre(size: nat)
    ensures forall k :: 0 <= k < 8 ==> VersionByte([20, 24, 28, 32, 40, 48, 56, 64][k]) == k
    ensures size !in [24, 28, 32, 40, 48, 56, 64] ==> VersionByte(size) == 0
  {
  }

  /** CalcVersionByte followed by ToByte; sizes without an entry in the table read as 0. */
  function VersionByte(size: nat): byte {
    if size == 24 then 1 else if size == 28 then 2 else if size == 32 then 3 else if size == 40 then 4
    else if size == 48 then 5 else if size == 56 then 6 else if size == 64 then 7 else 0
  }

  /** What an address object holds. */
  datatype Fields = Fields(network: string, addressType: AddressType, body: seq<byte>, checksum: seq<byte>, hex: seq<byte>)

  /** The symbols of the version byte and the address bytes. */
  function BodyOf(hex: seq<byte>): (r: seq<byte>)
    ensures AllBelow(r, 32)
  {
    var bytes: seq<byte> := [VersionByte(|hex|)] + hex;
    RegroupBelow(bytes, 8, 5);
    TwoToTheEight();
    Regroup(bytes, 8, 5)
  }

  function BytesOf(body: seq<byte>): (r: seq<byte>) {
    RegroupBelow(body, 5, 8);
    TwoToTheEight();
    Regroup(body, 5, 8)
  }

  function WithBody(network: string, body: seq<byte>, hex: seq<byte>): Fields
    requires hex != []
  {
    Fields(network, TypeOf(hex), body, Cip37Checksum.ChecksumSymbols(network, body), hex)
  }

  /** The address with the given bytes. */
  function FromHex(network: string, hex: seq<byte>): Fields
    requires hex != []
  {
    WithBody(network, BodyOf(hex), hex)
  }

  /** The address whose body reads `bodyText`. */
  function FromBody(network: string, bodyText: string): Fields
    requires |bodyText| >= 4
  {
    EnoughBytes(Indices(bodyText));
    WithBody(network, Indices(bodyText), BytesOf(Indices(bodyText))[1..])
  }

  ghost predicate WellFormed(f: Fields) {
    AllBelow(f.body, 32) && |f.checksum| == 8 && AllBelow(f.checksum, 32)
  }

  /** GetBase32Address and GetVerboseBase32Address. */
  function Printed(f: Fields): string
    requires WellFormed(f)
  {
    f.network + ":" + (Letters(f.body) + Letters(f.checksum))
  }

  function Verbose(f: Fields): string
    requires WellFormed(f)
  {
    f.network + ":" + f.addressType.Text() + ":" + (Letters(f.body) + Letters(f.checksum))
  }

  /** What becomes of a text. Threw: an accepted text of a network like "netx", for which `std::stoi` finds no number; the
      fields are set all the same. */
  datatype Parsed = Rejected | Accepted(fields: Fields) | Threw(fields: Fields)

  /** What NewFromBase32 returns: 0, 1, or an exception. */
  datatype Reply = No | Yes | Exception

  /** Of the parts of a text, those that NewFromBase32 reads on with. */
  predicate Framed(parts: seq<string>) {
    2 <= |parts| <= 3 && |parts[|parts| - 1]| >= 8
  }

  ghost predicate SingleCase(text: string) {
    Lower(text) == text || Upper(text) == text
  }

  /** The parts that a text is split into. */
  function PartsOf(text: string): (parts: seq<string>)
    ensures parts != []
  {
    Parts(Lower(text), ':', 0)
  }

  /** Body and checksum. */
  function LastOf(text: string): string {
    PartsOf(text)[|PartsOf(text)| - 1]
  }

  /** A body shorter than two bytes makes the library read behind the end of a vector. */
  ghost predicate Defined(text: string) {
    SingleCase(text) && Framed(PartsOf(text)) ==> |LastOf(text)| >= 12
  }

  function Judge(parts: seq<string>): Parsed
    requires Framed(parts) && |parts[|parts| - 1]| >= 12
  {
    var last := parts[|parts| - 1];
    var f := FromBody(parts[0], last[..|last| - 8]);
    SymbolsOfAddress(f.network, f.body);
    if |parts| == 3 && Lower(parts[1]) != f.addressType.Text() then Rejected
    else if Letters(f.checksum) != last[|last| - 8..] then Rejected
    else if NetworkNumber(f.network).None? then Threw(f)
    else Accepted(f)
  }

  /** NewFromBase32. */
  ghost function Read(text: string): Parsed
    requires Defined(text)
  {
    if !SingleCase(text) || !Framed(PartsOf(text)) then Rejected else Judge(PartsOf(text))
  }

  lemma SymbolsOfAddress(network: string, body: seq<byte>)
    ensures AllBelow(Cip37Checksum.ChecksumSymbols(network, body), 32)
  {
    var input := Cip37Checksum.Covered(network, body) + Cip37Checksum.ZEROS;
    Cip37Checksum.SymbolsBelow(Cip37Polymod.Num(Cip37Polymod.Checksum(input), 40));
  }

  /** Four symbols make at least two bytes. */
  lemma EnoughBytes(body: seq<byte>)
    requires |body| >= 4
    ensures |BytesOf(body)| >= 2
  {
    hide Quot, Rem, Digits;
    var bits := BitCount(|body|, 5);
    QuotRem(bits, 8);
    assert bits >= 20;
  }

  // ---------------------------------------------------------------- the class

  class Address {
    var network: string
    var addressType: AddressType
    var body: seq<byte>
    var checksum: seq<byte>
    var hex: seq<byte>
    var networkID: nat

    function View(): Fields
      reads this
    {
      Fields(network, addressType, body, checksum, hex)
    }

    constructor (hexAddress: seq<byte>, id: nat)
      requires hexAddress != [] && id < UINT32_COUNT
      ensures View() == FromHex(NetworkText(id), hexAddress) && networkID == id
    {
      new;
      NewFromBytes(hexAddress, id);
    }

    /** The number of the network is set to what its text reads as, which is the number given. */
    method NewFromBytes(hexAddress: seq<byte>, id: nat)
      requires hexAddress != [] && id < UINT32_COUNT
      modifies this
      ensures View() == FromHex(NetworkText(id), hexAddress) && networkID == id
    {
      hide Regroup, TypeOf, Cip37Checksum.ChecksumSymbols, Symbols, VersionByte, NetworkText, NetworkNumber;
      network := NetworkText(id);
      addressType := TypeOf(hexAddress);
      body := [VersionByte(|hexAddress|)];
      body := body + hexAddress;
      ByteSymbols(body);
      body := Convert(body, 8, 5);
      assert body == BodyOf(hexAddress);
      checksum := Cip37Checksum.CalcChecksum(network, body);
      HexThereAndBack(hexAddress);
      NumberThereAndBack(id);
      var _ := SetCache();
    }

    /** setCache, on a body of at least one byte; it may throw at the number of the network. */
    method SetCache() returns (threw: bool)
      requires AllBelow(body, 32) && BytesOf(body) != []
      modifies `hex, `networkID
      ensures hex == BytesOf(body)[1..]
      ensures match NetworkNumber(network)
              case None => threw && networkID == old(networkID)
              case Some(id) => !threw && networkID == id
    {
      hide Regroup, Symbols, NetworkNumber;
      hex := [];
      FiveBitSymbols(body);
      var b := Convert(body, 5, 8);
      hex := hex + b[1..];
      var id := NetworkNumber(network);
      if id.None? {
        return true;
      }
      networkID := id.value;
      return false;
    }

    /** The second half of NewFromBase32, on the parts of the text. */
    method ReadParts(parts: seq<string>) returns (r: Reply)
      requires Framed(parts) && |parts[|parts| - 1]| >= 12 && network == parts[0]
      modifies this
      ensures match Judge(parts)
              case Accepted(f) => r == Yes && View() == f && NetworkNumber(f.network) == Some(networkID)
              case Threw(f) => r == Exception && View() == f && networkID == old(networkID)
              case Rejected => r == No && hex == old(hex) && networkID == old(networkID)
    {
      hide Regroup, TypeOf, Cip37Checksum.ChecksumSymbols, Symbols, Indices, Letters, Lower, AddressType.Text, NetworkNumber;
      var bodyWithChecksum := parts[|parts| - 1];
      var bodyText := bodyWithChecksum[..|bodyWithChecksum| - 8];
      body := BodySymbols(bodyText);
      FiveBitSymbols(body);
      EnoughBytes(body);
      var b := Convert(body, 5, 8);
      addressType := TypeOf(b[1..]);
      if |parts| == 3 && Lower(parts[1]) != addressType.Text() {
        return No;
      }
      SymbolsOfAddress(network, body);
      checksum := Cip37Checksum.CalcChecksum(network, body);
      var expected := BitsToString(checksum);
      if expected != bodyWithChecksum[|bodyWithChecksum| - 8..] {
        return No;
      }
      var threw := SetCache();
      return if threw then Exception else Yes;
    }

    method NewFromBase32(base32: string) returns (r: Reply)
      requires Defined(base32)
      modifies this
      ensures match Read(base32)
              case Accepted(f) => r == Yes && View() == f && NetworkNumber(f.network) == Some(networkID)
              case Threw(f) => r == Exception && View() == f && networkID == old(networkID)
              case Rejected => r == No && hex == old(hex) && networkID == old(networkID)
      ensures !SingleCase(base32) ==> View() == old(View())
      ensures !Framed(PartsOf(base32)) ==> View() == old(View()).(network := network)
    {
      hide Parts, Lower, Upper, Judge, NetworkNumber;
      if Lower(base32) != base32 && Upper(base32) != base32 {
        return No;
      }
      var parts := SplitString(Lower(base32), ':');
      if |parts| < 2 || |parts| > 3 {
        return No;
      }
      network := parts[0];
      if |parts[|parts| - 1]| < 8 {
        return No;
      }
      r := ReadParts(parts);
    }

    method GetBase32Address() returns (text: string)
      requires WellFormed(View())
      ensures text == Printed(View())
    {
      hide Letters;
      var bodyText := BitsToString(body);
      var checksumText := BitsToString(checksum);
      return network + ":" + (bodyText + checksumText);
    }

    method GetVerboseBase32Address() returns (text: string)
      requires WellFormed(View())
      ensures text == Verbose(View())
    {
      hide Letters, AddressType.Text;
      var bodyText := BitsToString(body);
      var checksumText := BitsToString(checksum);
      return network + ":" + addressType.Text() + ":" + (bodyText + checksumText);
    }

    /** operator==; the body that it compares is the other address's own, with itself. */
    method Equals(other: Address) returns (same: bool)
      ensures same <==> Same(View(), other.View())
    {
      if other.network != network {
        return false;
      }
      if other.addressType.Text() != addressType.Text() {
        return false;
      }
      if other.body != other.body {
        return false;
      }
      if other.checksum != checksum {
        return false;
      }
      return true;
    }
  }

  ghost predicate Same(f: Fields, g: Fields) {
    f.network == g.network && f.addressType == g.addressType && f.checksum == g.checksum
  }

  lemma ByteSymbols(s: seq<byte>)
    ensures Symbols(s, 8)
  {
    TwoToTheEight();
  }

  lemma FiveBitSymbols(s: seq<byte>)
    requires AllBelow(s, 32)
    ensures Symbols(s, 5)
  {
    TwoToTheEight();
  }

  // ------------------------------------------------------------- address bytes

  /** The body keeps the version byte and every byte of the address. */
  lemma HexThereAndBack(hex: seq<byte>)
    ensures BytesOf(BodyOf(hex)) == [VersionByte(|hex|)] + hex
  {
    hide Regroup, VersionByte;
    var bytes: seq<byte> := [VersionByte(|hex|)] + hex;
    ByteSymbols(bytes);
    NarrowAndBack(bytes, 8, 5);
  }

  lemma BodyLength(hex: seq<byte>)
    requires hex != []
    ensures |BodyOf(hex)| >= 4 && (|hex| == 20 ==> |BodyOf(hex)| == 34)
  {
    hide Quot, Rem, Digits, VersionByte;
    var n := BitCount(|hex| + 1, 8) + 4;
    QuotRem(n, 5);
    if |hex| == 20 {
      QuotUnique(34, 2, 5);
    }
  }

  lemma FromHexIsWellFormed(network: string, hex: seq<byte>)
    requires hex != []
    ensures WellFormed(FromHex(network, hex))
  {
    hide BodyOf, Cip37Checksum.ChecksumSymbols, TypeOf;
    SymbolsOfAddress(network, BodyOf(hex));
  }

  // ---------------------------------------------------------------- the round trip

  /** What is printed splits into the network and the symbols again. */
  lemma PrintedParts(f: Fields)
    requires WellFormed(f) && IsLower(f.network) && ':' !in f.network
    ensures var last := Letters(f.body) + Letters(f.checksum);
            && Lower(Printed(f)) == Printed(f) && Parts(Printed(f), ':', 0) == [f.network, last]
            && Lower(Verbose(f)) == Verbose(f) && Parts(Verbose(f), ':', 0) == [f.network, f.addressType.Text(), last]
  {
    hide Letters, AddressType.Text, Parts, Lower;
    LettersAreLower(f.body);
    LettersAreLower(f.checksum);
    TypeText(f.addressType);
    var last := Letters(f.body) + Letters(f.checksum);
    LowerFixes(Printed(f));
    LowerFixes(Verbose(f));
    TwoParts(f.network, last);
    ThreeParts(f.network, f.addressType.Text(), last);
  }

  lemma TypeText(t: AddressType)
    ensures IsLower(t.Text()) && ':' !in t.Text() && Lower(t.Text()) == t.Text()
  {
    LowerFixes(t.Text());
  }

  /** Both texts of an address made from bytes are read back the same in every field. */
  lemma PrintedIsJudged(network: string, hex: seq<byte>)
    requires hex != [] && IsLower(network) && ':' !in network
    ensures var f := FromHex(network, hex);
            var r := if NetworkNumber(network).Some? then Accepted(f) else Threw(f);
            && WellFormed(f)
            && Defined(Printed(f)) && Read(Printed(f)) == r
            && Defined(Verbose(f)) && Read(Verbose(f)) == r
  {
    hide BodyOf, BytesOf, Cip37Checksum.ChecksumSymbols, TypeOf, Letters, Indices, AddressType.Text, Parts;
    hide Lower, Upper, VersionByte;
    hide NetworkNumber;
    var f := FromHex(network, hex);
    FromHexIsWellFormed(network, hex);
    PrintedParts(f);
    BodyLength(hex);
    HexThereAndBack(hex);
    IndicesOfLetters(f.body);
    TypeText(f.addressType);
    var last := Letters(f.body) + Letters(f.checksum);
    assert last[..|last| - 8] == Letters(f.body) && last[|last| - 8..] == Letters(f.checksum);
  }

  /** So on every network that has a number they are accepted. */
  lemma PrintedIsAccepted(id: nat, hex: seq<byte>)
    requires hex != [] && id < UINT32_COUNT
    ensures var f := FromHex(NetworkText(id), hex);
            && WellFormed(f)
            && Defined(Printed(f)) && Read(Printed(f)) == Accepted(f)
            && Defined(Verbose(f)) && Read(Verbose(f)) == Accepted(f)
  {
    hide FromHex, Read, Printed, Verbose, NetworkText, NetworkNumber;
    NumberThereAndBack(id);
    PrintedIsJudged(NetworkText(id), hex);
  }
}
