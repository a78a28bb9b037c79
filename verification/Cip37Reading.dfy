/** Which texts NewFromBase32 accepts, and what it makes of them (libcfxcore/types/cfxaddress/address.cpp). */
module Cip37Reading {
  import opened Numbers
  import Cip37Convert
  import Cip37Polymod
  import opened Cip37Checksum
  import opened Cip37Text
  import Cip37Network
  import opened Cip37Address

  // ---------------------------------------------------------------- the residue

  /** Eight letters are the checksum exactly when they are letters, and its symbols. */
  lemma ChecksumText(chk: seq<byte>, tail: string)
    requires AllBelow(chk, 32)
    ensures Letters(chk) == tail <==> InAlphabet(tail) && chk == Indices(tail)
  {
    hide Letters, Indices, InAlphabet;
    LettersOfIndices(tail);
    IndicesOfLetters(chk);
  }

  lemma SplitIndices(s: string, k: nat)
    requires k <= |s|
    ensures Indices(s) == Indices(s[..k]) + Indices(s[k..])
  {
    hide Index;
  }

  /** The three-part form names the type that the bytes have. */
  ghost predicate TypeAgrees(parts: seq<string>)
    requires Framed(parts) && |parts[|parts| - 1]| >= 12
  {
    var last := parts[|parts| - 1];
    |parts| == 3 ==> Lower(parts[1]) == FromBody(parts[0], last[..|last| - 8]).addressType.Text()
  }

  lemma JudgedByResidue(parts: seq<string>)
    requires Framed(parts) && |parts[|parts| - 1]| >= 12
    ensures var last := parts[|parts| - 1];
            (Judge(parts) != Rejected <==>
               TypeAgrees(parts) && InAlphabet(last[|last| - 8..])
               && Cip37Polymod.Checksum(PrefixSymbols(parts[0]) + [0] + Indices(last)) == 0)
            && (Judge(parts) != Rejected ==> (Judge(parts).Accepted? <==> Cip37Network.NetworkNumber(parts[0]).Some?))
  {
    hide ChecksumSymbols, BytesOf, TypeOf, Letters, Cip37Polymod.Checksum, PrefixSymbols, Indices;
    hide InAlphabet, AddressType.Text, Cip37Network.NetworkNumber;
    var last := parts[|parts| - 1];
    var k := |last| - 8;
    var body, tail := Indices(last[..k]), Indices(last[k..]);
    SymbolsOfAddress(parts[0], body);
    ResidueIsZero(parts[0], body, tail);
    SplitIndices(last, k);
    assert Covered(parts[0], body) + tail == PrefixSymbols(parts[0]) + [0] + Indices(last);
    ChecksumText(ChecksumSymbols(parts[0], body), last[k..]);
  }

  /** A text is not rejected exactly when it is of one case, has two or three parts and eight characters or more in the last,
      names the right type if any, keeps to the alphabet in its last eight characters, and makes the register end at zero. It
      is then accepted, unless its network has no number. */
  lemma AcceptedIsResidue(text: string)
    requires Defined(text)
    ensures Read(text) != Rejected <==>
            && SingleCase(text) && Framed(PartsOf(text)) && TypeAgrees(PartsOf(text))
            && InAlphabet(LastOf(text)[|LastOf(text)| - 8..])
            && Cip37Polymod.Checksum(PrefixSymbols(PartsOf(text)[0]) + [0] + Indices(LastOf(text))) == 0
    ensures Read(text) != Rejected ==> (Read(text).Accepted? <==> Cip37Network.NetworkNumber(PartsOf(text)[0]).Some?)
  {
    hide Judge, Cip37Polymod.Checksum, PrefixSymbols, Indices, InAlphabet, TypeAgrees, PartsOf, Cip37Network.NetworkNumber;
    if SingleCase(text) && Framed(PartsOf(text)) {
      JudgedByResidue(PartsOf(text));
    }
  }

  /** Two texts of one network, not rejected, whose symbols differ only within eight consecutive characters have the same
      symbols, so of two texts in the alphabet at most one is not rejected. */
  lemma WindowErrorsAreRejected(t: string, u: string, lo: nat)
    requires Defined(t) && Defined(u) && Read(t) != Rejected
    requires PartsOf(t)[0] == PartsOf(u)[0] && |LastOf(t)| == |LastOf(u)|
    requires forall i :: 0 <= i < |LastOf(t)| && !(lo <= i < lo + 8) ==> LastOf(t)[i] == LastOf(u)[i]
    ensures Read(u) != Rejected ==> Indices(LastOf(u)) == Indices(LastOf(t))
    ensures InAlphabet(LastOf(t)) && InAlphabet(LastOf(u)) && LastOf(t) != LastOf(u) ==> Read(u) == Rejected
  {
    hide Read, Cip37Polymod.Checksum, Index, PartsOf, LastOf, InAlphabet, TypeAgrees, SingleCase, Cip37Network.NetworkNumber;
    AcceptedIsResidue(t);
    AcceptedIsResidue(u);
    if Read(u) != Rejected {
      SymbolsInWindow(PartsOf(t)[0], LastOf(t), LastOf(u), lo);
    }
    LettersOfIndices(LastOf(t));
    LettersOfIndices(LastOf(u));
  }

  lemma SymbolsInWindow(network: string, s: string, t: string, lo: nat)
    requires |s| == |t| && forall i :: 0 <= i < |s| && !(lo <= i < lo + 8) ==> s[i] == t[i]
    requires var prefix := PrefixSymbols(network) + [0];
             Cip37Polymod.Checksum(prefix + Indices(s)) == Cip37Polymod.Checksum(prefix + Indices(t))
    ensures Indices(s) == Indices(t)
  {
    hide Cip37Polymod.Checksum, Index;
    var prefix := PrefixSymbols(network) + [0];
    var a, b := prefix + Indices(s), prefix + Indices(t);
    Cip37Polymod.WindowsAreDetected(a, b, |prefix| + lo);
    assert Indices(s) == a[|prefix|..] && Indices(t) == b[|prefix|..];
  }

  // ------------------------------------------------------------ printing what was read

  lemma JudgedFields(parts: seq<string>)
    requires Framed(parts) && |parts[|parts| - 1]| >= 12 && Judge(parts).Accepted?
    ensures var f := Judge(parts).fields; var last := parts[|parts| - 1];
            && WellFormed(f) && f.network == parts[0] && f.body == Indices(last[..|last| - 8])
            && Letters(f.checksum) == last[|last| - 8..]
            && |BytesOf(f.body)| >= 2 && f == WithBody(f.network, f.body, BytesOf(f.body)[1..])
            && (|parts| == 3 ==> Lower(parts[1]) == f.addressType.Text())
  {
    hide ChecksumSymbols, BytesOf, TypeOf, Letters, Indices, AddressType.Text;
    var last := parts[|parts| - 1];
    var body := Indices(last[..|last| - 8]);
    EnoughBytes(body);
    SymbolsOfAddress(parts[0], body);
  }

  /** The letters printed are those read exactly when the body keeps to the alphabet. */
  lemma LettersBack(last: string, body: seq<byte>, chk: seq<byte>)
    requires |last| >= 8 && body == Indices(last[..|last| - 8])
    requires AllBelow(chk, 32) && Letters(chk) == last[|last| - 8..]
    ensures Letters(body) + Letters(chk) == last <==> InAlphabet(last[..|last| - 8])
  {
    hide Letters, Indices, InAlphabet;
    var k := |last| - 8;
    LettersOfIndices(last[..k]);
    assert last == last[..k] + last[k..];
    assert (Letters(body) + Letters(chk))[..k] == Letters(body);
  }

  lemma SameBehind(x: string, y: string, z: string)
    ensures x + y == x + z <==> y == z
  {
    assert (x + y)[|x|..] == y && (x + z)[|x|..] == z;
  }

  /** An accepted text is printed back, in lower case, exactly when its body keeps to the alphabet: a text of two parts by the
      short form, one of three by the verbose form. */
  lemma PrintsWhatItRead(text: string)
    requires Defined(text) && Read(text).Accepted?
    ensures var f, last := Read(text).fields, LastOf(text);
            && WellFormed(f) && |last| >= 8
            && (Printed(f) == Lower(text) <==> |PartsOf(text)| == 2 && InAlphabet(last[..|last| - 8]))
            && (Verbose(f) == Lower(text) <==> |PartsOf(text)| == 3 && InAlphabet(last[..|last| - 8]))
  {
    hide Judge, Letters, Indices, AddressType.Text, InAlphabet, Parts, Lower, Printed, Verbose, WellFormed;
    hide BytesOf, TypeOf, ChecksumSymbols, SingleCase;
    JudgedFields(PartsOf(text));
    LowerParts(text);
    PrintedBack(Read(text).fields, Lower(text), LastOf(text), PartsOf(text));
  }

  lemma PrintedBack(f: Fields, low: string, last: string, parts: seq<string>)
    requires WellFormed(f) && |last| >= 8 && ':' !in f.network
    requires f.body == Indices(last[..|last| - 8]) && Letters(f.checksum) == last[|last| - 8..]
    requires 2 <= |parts| <= 3 && parts == Parts(low, ':', 0)
    requires low == if |parts| == 2 then f.network + ":" + last else f.network + ":" + f.addressType.Text() + ":" + last
    ensures Printed(f) == low <==> |parts| == 2 && InAlphabet(last[..|last| - 8])
    ensures Verbose(f) == low <==> |parts| == 3 && InAlphabet(last[..|last| - 8])
  {
    hide Letters, Indices, AddressType.Text, InAlphabet, Parts, Printed, Verbose, WellFormed;
    PrintedForms(f, low);
    PrintedLetters(f, last);
  }

  lemma PrintedLetters(f: Fields, last: string)
    requires WellFormed(f) && |last| >= 8
    requires f.body == Indices(last[..|last| - 8]) && Letters(f.checksum) == last[|last| - 8..]
    ensures Printed(f) == f.network + ":" + last <==> InAlphabet(last[..|last| - 8])
    ensures Verbose(f) == f.network + ":" + f.addressType.Text() + ":" + last <==> InAlphabet(last[..|last| - 8])
  {
    hide Letters, Indices, AddressType.Text, InAlphabet;
    LettersBack(last, f.body, f.checksum);
    var letters := Letters(f.body) + Letters(f.checksum);
    SameBehind(f.network + ":", letters, last);
    SameBehind(f.network + ":" + f.addressType.Text() + ":", letters, last);
  }

  /** The short form has two parts, the verbose form three. */
  lemma PrintedForms(f: Fields, text: string)
    requires WellFormed(f) && ':' !in f.network
    ensures Printed(f) == text ==> |Parts(text, ':', 0)| == 2
    ensures Verbose(f) == text ==> |Parts(text, ':', 0)| == 3
  {
    hide Letters, AddressType.Text, Parts;
    LettersAreLower(f.body);
    LettersAreLower(f.checksum);
    TypeText(f.addressType);
    TwoParts(f.network, Letters(f.body) + Letters(f.checksum));
    ThreeParts(f.network, f.addressType.Text(), Letters(f.body) + Letters(f.checksum));
  }

  /** The two or three parts, with the separators between them, are the text in lower case. */
  lemma LowerParts(text: string)
    ensures var parts := PartsOf(text);
            && ':' !in parts[0]
            && (|parts| == 2 ==> Lower(text) == parts[0] + ":" + parts[1])
            && (|parts| == 3 ==> Lower(text) == parts[0] + ":" + Lower(parts[1]) + ":" + parts[2])
  {
    hide Parts, Lower;
    var s, parts := Lower(text), PartsOf(text);
    PartsAreClean(s, ':', 0, 0);
    UnsplitParts(s, ':', 0);
    assert s[0..] == s;
    if |parts| == 2 {
      assert Unsplit(parts[1..], ':') == parts[1];
    } else if |parts| == 3 {
      assert Unsplit(parts[1..][1..], ':') == parts[2];
      assert Unsplit(parts[1..], ':') == parts[1] + [':'] + parts[2];
      assert s == parts[0] + [':'] + (parts[1] + [':'] + parts[2]);
      LowerPart(text);
    }
  }

  lemma LowerPart(text: string)
    requires |PartsOf(text)| == 3
    ensures Lower(PartsOf(text)[1]) == PartsOf(text)[1]
  {
    hide Parts, Lower;
    var part := PartsOf(text)[1];
    LowerFixes(text);
    PartsAreClean(Lower(text), ':', 0, 1);
    forall j | 0 <= j < |part| ensures !('A' <= part[j] <= 'Z') {
      assert part[j] in Lower(text);
    }
    LowerFixes(part);
  }

  // ------------------------------------------------- characters outside the alphabet

  lemma JudgedByIndices(x: seq<string>, y: seq<string>)
    requires Framed(x) && |x[|x| - 1]| >= 12 && |y| == |x| && |y[|y| - 1]| == |x[|x| - 1]|
    requires forall i :: 0 <= i < |x| - 1 ==> y[i] == x[i]
    requires var s, t := x[|x| - 1], y[|y| - 1]; var k := |s| - 8; Indices(t[..k]) == Indices(s[..k]) && t[k..] == s[k..]
    ensures Judge(x) == Judge(y)
  {
    hide ChecksumSymbols, BytesOf, TypeOf, Letters, Indices, AddressType.Text;
  }

  /** Changing a character of the last part to one that is no separator changes that part and no other. */
  lemma LastCharChanged(s: string, t: string, k: nat) returns (front: seq<string>, start: nat)
    requires k < |s| == |t| && t == s[k := t[k]] && t[k] != ':'
    requires var parts := Parts(s, ':', 0); |s| - |parts[|parts| - 1]| <= k
    ensures start <= k && Parts(s, ':', 0) == front + [s[start..]] && Parts(t, ':', 0) == front + [t[start..]]
  {
    hide Parts, Front, LastStart;
    front, start := Front(s, ':', 0), LastStart(s, ':', 0);
    FrontAndLast(s, ':', 0);
    FrontAndLast(t, ':', 0);
    assert Parts(s, ':', 0)[|front|] == s[start..];
    PartsAreClean(s, ':', 0, |front|);
    NoNewSeparator(s, t, start, k);
    LastPartChanged(s, t, ':', 0);
  }

  /** A character outside the alphabet, at any place of the body, is accepted for an 'a'; CIP-37 leaves such characters out. */
  lemma StrangersReadAsA(text: string, k: nat, c: char)
    requires Defined(text) && SingleCase(text) && Framed(PartsOf(text)) && k < |text| && SingleCase(text[k := c])
    requires |text| - |LastOf(text)| <= k < |text| - 8 && Lower(text)[k] == 'a'
    requires LowerChar(c) !in ALPHABET && LowerChar(c) != ':'
    ensures Defined(text[k := c]) && Read(text[k := c]) == Read(text)
  {
    hide Judge, Index, ALPHABET, Parts, SingleCase;
    var s, t := Lower(text), Lower(text[k := c]);
    assert t == s[k := LowerChar(c)];
    var front, start := LastCharChanged(s, t, k);
    ReadsAsA(s[start..], t[start..], k - start);
    JudgedByIndices(PartsOf(text), PartsOf(text[k := c]));
  }

  lemma NoNewSeparator(s: string, t: string, start: nat, k: nat)
    requires start <= k < |s| == |t| && t == s[k := t[k]] && t[k] != ':' && ':' !in s[start..]
    ensures ':' !in t[start..]
  {
    forall i | start <= i < |t| ensures t[i] != ':' {
      assert i != k ==> t[i] == s[start..][i - start];
    }
  }

  lemma ReadsAsA(s: string, t: string, k: nat)
    requires k + 8 < |s| == |t| && t == s[k := t[k]] && s[k] == 'a' && t[k] !in ALPHABET
    ensures var n := |s| - 8; Indices(t[..n]) == Indices(s[..n]) && t[n..] == s[n..]
  {
    hide Index, ALPHABET;
    LetterOfIndex(t[k]);
  }

  // --------------------------------------------------- the address of its own bytes

  lemma BackFromBytes(body: seq<byte>, network: string)
    requires AllBelow(body, 32) && |BytesOf(body)| >= 2
    ensures var b, left := BytesOf(body), Cip37Convert.Leftover(|body|, 5, 8);
            FromHex(network, b[1..]) == WithBody(network, body, b[1..]) <==>
            b[0] == VersionByte(|b| - 1) && left < 5 && Rem(Value(body, 32), Pow(2, left)) == 0
  {
    hide ChecksumSymbols, TypeOf, VersionByte, Cip37Convert.Regroup, Cip37Convert.Leftover, Rem, Pow, Value;
    TwoToTheEight();
    Cip37Convert.ThereAndBack(body, 5, 8);
    var b := BytesOf(body);
    assert b == [b[0]] + b[1..];
    if BodyOf(b[1..]) == body {
      HexThereAndBack(b[1..]);
    }
  }

  /** An accepted address is the address of its own bytes exactly when the version byte says their number and the bits behind them
      are fewer than a symbol, and zero; the library checks neither. */
  lemma ReadIsFromHex(text: string)
    requires Defined(text) && Read(text).Accepted?
    ensures var f := Read(text).fields; var left := Cip37Convert.Leftover(|f.body|, 5, 8);
            f.hex != [] && |BytesOf(f.body)| == |f.hex| + 1 &&
            (FromHex(f.network, f.hex) == f <==>
               && BytesOf(f.body)[0] == VersionByte(|f.hex|)
               && left < 5 && Rem(Value(f.body, 32), Pow(2, left)) == 0)
  {
    hide Judge, ChecksumSymbols, TypeOf, Indices, Letters, AddressType.Text, VersionByte, Cip37Convert.Leftover, Rem, Pow;
    hide Value, PartsOf, BytesOf;
    JudgedFields(PartsOf(text));
    BackFromBytes(Read(text).fields.body, Read(text).fields.network);
  }

  /** Of 34 symbols two bits are left. */
  lemma OrdinaryBody(body: seq<byte>)
    requires |body| == 34 && AllBelow(body, 32)
    ensures |BytesOf(body)| == 21 && Cip37Convert.Leftover(34, 5, 8) == 2
    ensures Rem(Value(body, 32), Pow(2, 2)) == 0 <==> body[33] % 4 == 0
  {
    hide Rem, Quot, Digits;
    QuotUnique(21, 2, 8);
    var v := Value(body[..33], 32);
    assert Pow(2, 2) == 4;
    QuotUnique(8 * v + body[33] / 4, body[33] % 4, 4);
  }

  /** For an ordinary text of 42 symbols: exactly when the version byte is zero and the last symbol of the body a multiple of
      four. */
  lemma OrdinaryIsFromHex(text: string)
    requires Defined(text) && Read(text).Accepted? && |LastOf(text)| == 42
    ensures var f := Read(text).fields;
            && |f.body| == 34 && |f.hex| == 20 && |BytesOf(f.body)| == 21
            && (FromHex(f.network, f.hex) == f <==> BytesOf(f.body)[0] == 0 && f.body[33] % 4 == 0)
  {
    hide Judge, ChecksumSymbols, TypeOf, Letters, AddressType.Text, Cip37Convert.Leftover, Rem, Pow, Value;
    hide PartsOf, BytesOf, Index;
    JudgedFields(PartsOf(text));
    OrdinaryBody(Read(text).fields.body);
    ReadIsFromHex(text);
  }

  // ------------------------------------------------------------------- the two forms

  /** The type may be left out of an accepted text. */
  lemma TypeMayBeLeftOut(network: string, kind: string, s: string)
    requires ':' !in network && ':' !in kind && ':' !in s
    requires var text := network + ":" + kind + ":" + s; Defined(text) && Read(text).Accepted?
    ensures var short := network + ":" + s;
            Defined(short) && Read(short) == Read(network + ":" + kind + ":" + s)
  {
    hide Judge, Parts, Lower, Upper;
    var long, short := network + ":" + kind + ":" + s, network + ":" + s;
    LowerOfParts(network, kind, s);
    CleanCase(network);
    CleanCase(kind);
    CleanCase(s);
    ThreeParts(Lower(network), Lower(kind), Lower(s));
    TwoParts(Lower(network), Lower(s));
    ShorterCase(network, kind, s);
    assert PartsOf(long) == [Lower(network), Lower(kind), Lower(s)] && PartsOf(short) == [Lower(network), Lower(s)];
    JudgedWithoutType(Lower(network), Lower(kind), Lower(s));
  }

  lemma JudgedWithoutType(network: string, kind: string, s: string)
    requires |s| >= 12 && Judge([network, kind, s]).Accepted?
    ensures Judge([network, s]) == Judge([network, kind, s])
  {
    hide ChecksumSymbols, BytesOf, TypeOf, Letters, Indices, AddressType.Text;
  }

  lemma LowerOfParts(x: string, y: string, z: string)
    ensures Lower(x + ":" + y + ":" + z) == Lower(x) + ":" + Lower(y) + ":" + Lower(z)
    ensures Lower(x + ":" + z) == Lower(x) + ":" + Lower(z)
  {
  }

  lemma CleanCase(x: string)
    requires ':' !in x
    ensures ':' !in Lower(x)
  {
    forall i | 0 <= i < |x| ensures Lower(x)[i] != ':' {
      assert x[i] in x;
    }
  }

  lemma ShorterCase(x: string, y: string, z: string)
    requires SingleCase(x + ":" + y + ":" + z)
    ensures SingleCase(x + ":" + z)
  {
    var long, short := x + ":" + y + ":" + z, x + ":" + z;
    var gap := |y| + 1;
    assert forall i :: 0 <= i < |short| ==> short[i] == long[if i <= |x| then i else i + gap];
    if Lower(long) == long {
      forall i | 0 <= i < |short| ensures LowerChar(short[i]) == short[i] {
        var j := if i <= |x| then i else i + gap;
        assert Lower(long)[j] == LowerChar(long[j]);
      }
      assert Lower(short) == short;
    } else {
      forall i | 0 <= i < |short| ensures UpperChar(short[i]) == short[i] {
        var j := if i <= |x| then i else i + gap;
        assert Upper(long)[j] == UpperChar(long[j]);
      }
      assert Upper(short) == short;
    }
  }
}
