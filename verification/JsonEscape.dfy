/** Escaping (utils/json_spirit/json_spirit_writer_template.h) and unescaping (json_spirit_reader_template.h) of the characters of
    a JSON string, one byte each. Which bytes print is a parameter: iswprint depends on the locale. */
module JsonEscape {
  import opened Numbers

  type Text = seq<byte>

  const QUOTE: byte := '"' as int
  const BACKSLASH: byte := '\\' as int

  // ------------------------------------------------------------------ specification

  function HexChar(n: nat): (r: byte)
    requires n < 16
  {
    if n < 10 then '0' as int + n else 'A' as int - 10 + n
  }

  /** hex_to_num; anything else than a hexadecimal digit reads as 0. */
  function HexNum(c: byte): (n: nat)
    ensures n < 16
  {
    if '0' as int <= c <= '9' as int then c - '0' as int
    else if 'a' as int <= c <= 'f' as int then c - 'a' as int + 10
    else if 'A' as int <= c <= 'F' as int then c - 'A' as int + 10
    else 0
  }

  lemma HexThereAndBack(n: nat)
    requires n < 16
    ensures HexNum(HexChar(n)) == n && HexChar(n) != BACKSLASH && HexChar(n) != QUOTE
  {
  }

  /** The letter behind the backslash, for the characters that have one. */
  function ShortName(c: byte): (r: byte) {
    if c == QUOTE then QUOTE
    else if c == BACKSLASH then BACKSLASH
    else if c == 8 then 'b' as int
    else if c == 12 then 'f' as int
    else if c == 10 then 'n' as int
    else if c == 13 then 'r' as int
    else if c == 9 then 't' as int
    else 0
  }

  function UnicodeEscape(c: nat): Text
    requires c < 0x1_0000
  {
    [BACKSLASH, 'u' as int, HexChar(c / 16 / 16 / 16), HexChar(c / 16 / 16 % 16), HexChar(c / 16 % 16), HexChar(c % 16)]
  }

  /** What is written for one character. */
  function Escape(c: byte, printable: byte -> bool): Text {
    if ShortName(c) != 0 then [BACKSLASH, ShortName(c)] else if printable(c) then [c] else UnicodeEscape(c)
  }

  function Escaped(s: Text, printable: byte -> bool): Text {
    if s == [] then [] else Escape(s[0], printable) + Escaped(s[1..], printable)
  }

  /** What the characters `s` behind a backslash stand for, and how many of them are taken. */
  function Meaning(s: Text): (r: (Text, nat))
    requires s != []
    ensures 1 <= r.1 <= |s|
  {
    var c := s[0];
    if c == 't' as int then ([9], 1)
    else if c == 'b' as int then ([8], 1)
    else if c == 'f' as int then ([12], 1)
    else if c == 'n' as int then ([10], 1)
    else if c == 'r' as int then ([13], 1)
    else if c == BACKSLASH then ([BACKSLASH], 1)
    else if c == '/' as int then (['/' as int], 1)
    else if c == QUOTE then ([QUOTE], 1)
    else if c == 'x' as int && |s| >= 3 then ([HexNum(s[1]) * 16 + HexNum(s[2])], 3)
    else if c == 'u' as int && |s| >= 5 then ([UnicodeChar(s[1], s[2], s[3], s[4])], 5)
    else ([], 1)
  }

  /** Four hexadecimal digits, in one char. */
  function UnicodeChar(c1: byte, c2: byte, c3: byte, c4: byte): byte {
    (HexNum(c1) * 4096 + HexNum(c2) * 256 + HexNum(c3) * 16 + HexNum(c4)) % 256
  }

  /** A string with its escapes replaced; a backslash at the very end stands for itself. */
  function Unescaped(s: Text): Text
    decreases |s|
  {
    if |s| < 2 then s
    else if s[0] == BACKSLASH then
      var m := Meaning(s[1..]);
      m.0 + Unescaped(s[1 + m.1..])
    else [s[0]] + Unescaped(s[1..])
  }

  // --------------------------------------------------------------------- methods

  /** non_printable_to_string: six backslashes, overwritten from the last digit to the first. */
  method NonPrintableToString(unsigned: nat) returns (r: array<byte>)
    requires unsigned < 0x1_0000
    ensures fresh(r) && r[..] == UnicodeEscape(unsigned)
  {
    hide HexChar;
    r := new byte[6](_ => BACKSLASH);
    r[1] := 'u' as int;
    var c := unsigned;
    r[5] := HexChar(c % 16);
    c := c / 16;
    r[4] := HexChar(c % 16);
    c := c / 16;
    r[3] := HexChar(c % 16);
    c := c / 16;
    r[2] := HexChar(c % 16);
  }

  /** add_esc_char. */
  method AddEscChar(c: byte, s: Text) returns (added: bool, r: Text)
    ensures added <==> ShortName(c) != 0
    ensures r == if added then s + [BACKSLASH, ShortName(c)] else s
  {
    added, r := true, s;
    if c == QUOTE {
      r := r + [BACKSLASH, QUOTE];
    } else if c == BACKSLASH {
      r := r + [BACKSLASH, BACKSLASH];
    } else if c == 8 {
      r := r + [BACKSLASH, 'b' as int];
    } else if c == 12 {
      r := r + [BACKSLASH, 'f' as int];
    } else if c == 10 {
      r := r + [BACKSLASH, 'n' as int];
    } else if c == 13 {
      r := r + [BACKSLASH, 'r' as int];
    } else if c == 9 {
      r := r + [BACKSLASH, 't' as int];
    } else {
      added := false;
    }
  }

  /** The body of the loop. */
  method AddOne(c: byte, printable: byte -> bool, s: Text) returns (r: Text)
    ensures r == s + Escape(c, printable)
  {
    hide ShortName, UnicodeEscape;
    var added;
    added, r := AddEscChar(c, s);
    if !added {
      if printable(c) {
        r := r + [c];
      } else {
        var u := NonPrintableToString(c);
        r := r + u[..];
      }
    }
  }

  lemma EscapedFrom(s: Text, i: nat, printable: byte -> bool)
    requires i < |s|
    ensures Escaped(s[i..], printable) == Escape(s[i], printable) + Escaped(s[i + 1..], printable)
  {
    hide Escape;
    assert s[i..][0] == s[i] && s[i..][1..] == s[i + 1..];
  }

  /** add_esc_chars. */
  method AddEscChars(s: Text, printable: byte -> bool) returns (result: Text)
    ensures result == Escaped(s, printable)
    ensures Unescaped(result) == s
  {
    result := [];
    for i := 0 to |s|
      invariant result + Escaped(s[i..], printable) == Escaped(s, printable)
    {
      hide Escape, Escaped, Unescaped;
      EscapedFrom(s, i, printable);
      Associative(result, Escape(s[i], printable), Escaped(s[i + 1..], printable));
      result := AddOne(s[i], printable, result);
    }
    assert s[|s|..] == [];
    EscapesAreRead(s, printable);
  }

  /** append_esc_char_and_incr_iter: `i` moves to the last character of the escape and never past it. */
  method AppendEscChar(s: Text, text: Text, begin: nat) returns (r: Text, i: nat)
    requires begin < |text|
    ensures var m := Meaning(text[begin..]); r == s + m.0 && i == begin + m.1 - 1 < |text|
  {
    hide HexNum;
    r, i := s, begin;
    var c2 := text[begin];
    if c2 == 't' as int {
      r := r + [9];
    } else if c2 == 'b' as int {
      r := r + [8];
    } else if c2 == 'f' as int {
      r := r + [12];
    } else if c2 == 'n' as int {
      r := r + [10];
    } else if c2 == 'r' as int {
      r := r + [13];
    } else if c2 == BACKSLASH {
      r := r + [BACKSLASH];
    } else if c2 == '/' as int {
      r := r + ['/' as int];
    } else if c2 == QUOTE {
      r := r + [QUOTE];
    } else if c2 == 'x' as int {
      if |text| - i >= 3 {
        r := r + [HexNum(text[i + 1]) * 16 + HexNum(text[i + 2])];
        i := i + 2;
      }
    } else if c2 == 'u' as int {
      if |text| - i >= 5 {
        r := r + [UnicodeChar(text[i + 1], text[i + 2], text[i + 3], text[i + 4])];
        i := i + 4;
      }
    }
  }

  /** At a backslash: what was read so far goes out, then what the escape means. */
  method ReplaceEscape(text: Text, result: Text, substrStart: nat, i: nat) returns (r: Text, last: nat)
    requires substrStart <= i < |text| - 1 && text[i] == BACKSLASH
    ensures i < last < |text|
    ensures r + Unescaped(text[last + 1..]) == (result + text[substrStart..i]) + Unescaped(text[i..])
  {
    hide Meaning;
    r := result + text[substrStart..i];
    ghost var before, m := r, Meaning(text[i + 1..]);
    EscapeAt(text, i);
    r, last := AppendEscChar(r, text, i + 1);
    Associative(before, m.0, Unescaped(text[last + 1..]));
  }

  lemma EscapeAt(text: Text, i: nat)
    requires i < |text| - 1 && text[i] == BACKSLASH
    ensures var m := Meaning(text[i + 1..]); Unescaped(text[i..]) == m.0 + Unescaped(text[i + 1 + m.1..])
  {
    hide Meaning;
    var m := Meaning(text[i + 1..]);
    assert text[i..][1..] == text[i + 1..] && text[i..][1 + m.1..] == text[i + 1 + m.1..];
  }

  /** At any other character: it is left for later. */
  lemma CharacterAt(text: Text, result: Text, start: nat, i: nat)
    requires start <= i < |text| - 1 && text[i] != BACKSLASH
    ensures (result + text[start..i + 1]) + Unescaped(text[i + 1..]) == (result + text[start..i]) + Unescaped(text[i..])
  {
    assert text[i..][0] == text[i] && text[i..][1..] == text[i + 1..];
    var u := Unescaped(text[i + 1..]);
    assert Unescaped(text[i..]) == [text[i]] + u;
    hide Unescaped;
    assert result + text[start..i + 1] == (result + text[start..i]) + [text[i]];
    Associative(result + text[start..i], [text[i]], u);
  }

  /** At the end at most one character is left, and stands for itself. */
  lemma AtTheEnd(text: Text, result: Text, start: nat, i: nat)
    requires start <= i <= |text| <= i + 1
    ensures (result + text[start..i]) + Unescaped(text[i..]) == result + text[start..]
  {
    assert Unescaped(text[i..]) == text[i..];
    assert text[start..i] + text[i..] == text[start..];
  }

  lemma ShortText(text: Text)
    requires |text| < 2
    ensures Unescaped(text) == text
  {
  }

  /** substitute_esc_chars, over a whole string. */
  method SubstituteEscChars(text: Text) returns (result: Text)
    ensures result == Unescaped(text)
  {
    hide Unescaped, Meaning;
    if |text| < 2 {
      ShortText(text);
      return text;
    }
    result := [];
    var substrStart, i := 0, 0;
    assert result + text[0..0] == [] && text[0..] == text;
    while i < |text| - 1
      invariant 0 <= substrStart <= i <= |text|
      invariant (result + text[substrStart..i]) + Unescaped(text[i..]) == Unescaped(text)
      decreases |text| - i
    {
      if text[i] == BACKSLASH {
        result, i := ReplaceEscape(text, result, substrStart, i);
        substrStart := i + 1;
        assert text[i + 1..i + 1] == [];
      } else {
        CharacterAt(text, result, substrStart, i);
      }
      i := i + 1;
    }
    AtTheEnd(text, result, substrStart, i);
    result := result + text[substrStart..];
  }

  // ------------------------------------------------------------------- round trip

  /** One escape is read back as the character it was written for, whatever follows. */
  lemma EscapeIsRead(c: byte, printable: byte -> bool, rest: Text)
    ensures Unescaped(Escape(c, printable) + rest) == [c] + Unescaped(rest)
  {
    hide Unescaped, UnicodeEscape;
    if ShortName(c) != 0 {
      ShortIsRead(c, rest);
    } else if printable(c) {
      PlainIsRead(c, rest);
    } else {
      DigitsAreRead(c, rest);
    }
  }

  lemma ShortIsRead(c: byte, rest: Text)
    requires ShortName(c) != 0
    ensures Unescaped([BACKSLASH, ShortName(c)] + rest) == [c] + Unescaped(rest)
  {
    hide ShortName;
    var s := [BACKSLASH, ShortName(c)] + rest;
    assert s[1..][0] == ShortName(c) && s[2..] == rest;
    ShortNameMeans(c, s[1..]);
  }

  lemma PlainIsRead(c: byte, rest: Text)
    requires ShortName(c) == 0
    ensures Unescaped([c] + rest) == [c] + Unescaped(rest)
  {
    assert ([c] + rest)[1..] == rest;
  }

  lemma DigitsAreRead(c: byte, rest: Text)
    ensures Unescaped(UnicodeEscape(c) + rest) == [c] + Unescaped(rest)
  {
    hide HexNum, HexChar, UnicodeChar;
    var e := UnicodeEscape(c);
    var s := e + rest;
    var t := s[1..];
    assert t[0] == 'u' as int && s[6..] == rest;
    DigitsMean(c);
    assert t[1] == e[2] && t[2] == e[3] && t[3] == e[4] && t[4] == e[5];
  }

  lemma ShortNameMeans(c: byte, t: Text)
    requires ShortName(c) != 0 && t != [] && t[0] == ShortName(c)
    ensures Meaning(t) == ([c], 1)
  {
  }

  lemma DigitsMean(c: nat)
    requires c < 0x1_0000
    ensures UnicodeChar(HexChar(c / 16 / 16 / 16), HexChar(c / 16 / 16 % 16), HexChar(c / 16 % 16), HexChar(c % 16)) == c % 256
  {
    hide HexNum, HexChar;
    var c1 := c / 16;
    var c2 := c1 / 16;
    HexThereAndBack(c2 / 16);
    HexThereAndBack(c2 % 16);
    HexThereAndBack(c1 % 16);
    HexThereAndBack(c % 16);
    FourNibbles(c, c1, c2, c2 / 16, c % 16, c1 % 16, c2 % 16);
  }

  lemma FourNibbles(c: nat, c1: nat, c2: nat, c3: nat, d0: nat, d1: nat, d2: nat)
    requires c == c1 * 16 + d0 && c1 == c2 * 16 + d1 && c2 == c3 * 16 + d2
    ensures c3 * 4096 + d2 * 256 + d1 * 16 + d0 == c
  {
  }

  /** Whatever prints, reading what was written gives the string back. */
  lemma {:induction false} EscapesAreRead(s: Text, printable: byte -> bool)
    ensures Unescaped(Escaped(s, printable)) == s
  {
    hide Escape, Unescaped;
    if s == [] {
      NothingToRead();
    } else {
      EscapesAreRead(s[1..], printable);
      EscapeIsRead(s[0], printable, Escaped(s[1..], printable));
    }
  }

  lemma NothingToRead()
    ensures Unescaped([]) == []
  {
  }

  /** A code point is read back exactly when it fits one byte: of a larger one the high digits are lost. */
  lemma CodePointsAreCut(n: nat)
    requires n < 0x1_0000
    ensures Unescaped(UnicodeEscape(n)) == [n % 256]
  {
    hide HexNum, HexChar, UnicodeChar;
    var s := UnicodeEscape(n);
    DigitsMean(n);
    assert s[1..][0] == 'u' as int && s[6..] == [];
  }

  // -------------------------------------------------- every spelling of every escape

  const LOWER_HEX: string := "0123456789abcdef"
  const UPPER_HEX: string := "0123456789ABCDEF"

  /** `c` is the hexadecimal digit of `k`, in either case. */
  predicate Spells(c: byte, k: nat)
    requires k < 16
  {
    c == LOWER_HEX[k] as int || c == UPPER_HEX[k] as int
  }

  lemma LowerDigits(k: nat)
    requires k < 16
    ensures |LOWER_HEX| == 16 && HexNum(LOWER_HEX[k] as int % 256) == k && LOWER_HEX[k] as int < 256
  {
    assert LOWER_HEX[k] as int == if k < 10 then '0' as int + k else 'a' as int + k - 10;
  }

  lemma UpperDigits(k: nat)
    requires k < 16
    ensures |UPPER_HEX| == 16 && HexNum(UPPER_HEX[k] as int % 256) == k && UPPER_HEX[k] as int < 256
    ensures UPPER_HEX[k] as int == HexChar(k)
  {
    assert UPPER_HEX[k] as int == if k < 10 then '0' as int + k else 'A' as int + k - 10;
  }

  lemma SpelledIs(c: byte, k: nat)
    requires k < 16 && Spells(c, k)
    ensures HexNum(c) == k
  {
    hide HexNum, LOWER_HEX, UPPER_HEX;
    LowerDigits(k);
    UpperDigits(k);
  }

  /** A backslash, u and four hexadecimal digits, each in either case, are the low byte of the number they write. */
  lemma UnicodeEscapesRead(n: nat, c1: byte, c2: byte, c3: byte, c4: byte, rest: Text)
    requires n < 0x1_0000 && Spells(c1, n / 16 / 16 / 16) && Spells(c2, n / 16 / 16 % 16)
    requires Spells(c3, n / 16 % 16) && Spells(c4, n % 16)
    ensures Unescaped([BACKSLASH, 'u' as int, c1, c2, c3, c4] + rest) == [n % 256] + Unescaped(rest)
  {
    hide HexNum, UnicodeChar, Spells;
    var s := [BACKSLASH, 'u' as int, c1, c2, c3, c4] + rest;
    var t := s[1..];
    assert t[0] == 'u' as int && t[1] == c1 && t[2] == c2 && t[3] == c3 && t[4] == c4 && s[6..] == rest;
    FourDigits(n, c1, c2, c3, c4);
  }

  lemma FourDigits(n: nat, c1: byte, c2: byte, c3: byte, c4: byte)
    requires n < 0x1_0000 && Spells(c1, n / 16 / 16 / 16) && Spells(c2, n / 16 / 16 % 16)
    requires Spells(c3, n / 16 % 16) && Spells(c4, n % 16)
    ensures UnicodeChar(c1, c2, c3, c4) == n % 256
  {
    hide HexNum, Spells;
    var n1 := n / 16;
    var n2 := n1 / 16;
    SpelledIs(c1, n2 / 16);
    SpelledIs(c2, n2 % 16);
    SpelledIs(c3, n1 % 16);
    SpelledIs(c4, n % 16);
    FourNibbles(n, n1, n2, n2 / 16, n % 16, n1 % 16, n2 % 16);
  }

  /** A backslash, x and two hexadecimal digits, each in either case, are the byte they write. */
  lemma HexEscapesRead(n: byte, c1: byte, c2: byte, rest: Text)
    requires Spells(c1, n / 16) && Spells(c2, n % 16)
    ensures Unescaped([BACKSLASH, 'x' as int, c1, c2] + rest) == [n] + Unescaped(rest)
  {
    hide HexNum, Spells;
    var s := [BACKSLASH, 'x' as int, c1, c2] + rest;
    var t := s[1..];
    assert t[0] == 'x' as int && t[1] == c1 && t[2] == c2 && s[4..] == rest;
    SpelledIs(c1, n / 16);
    SpelledIs(c2, n % 16);
    assert HexNum(c1) * 16 + HexNum(c2) == n;
  }

  /** The escapes of one character: the quote, the backslash, the slash, and b, f, n, r, t; any other letter but u and x is
      dropped with its backslash. */
  lemma ShortEscapesRead(c: byte, rest: Text)
    requires c != 'u' as int && c != 'x' as int
    ensures Unescaped([92, c] + rest) ==
            (if c == 34 || c == 92 || c == 47 then [c] else if c == 98 then [8] else if c == 102 then [12]
             else if c == 110 then [10] else if c == 114 then [13] else if c == 116 then [9] else []) + Unescaped(rest)
  {
    var s := [92, c] + rest;
    assert s[1..][0] == c && s[2..] == rest;
  }

  /** What is written: seven characters by name, the others as they are, or as four upper-case digits. */
  lemma EscapesAre(c: byte, printable: byte -> bool)
    ensures Escape(c, printable) ==
            if c == 34 || c == 92 then [92, c] else if c == 8 then [92, 98] else if c == 12 then [92, 102]
            else if c == 10 then [92, 110] else if c == 13 then [92, 114] else if c == 9 then [92, 116]
            else if printable(c) then [c]
            else [92, 117, 48, 48, UPPER_HEX[c / 16] as int, UPPER_HEX[c % 16] as int]
  {
    hide UPPER_HEX, HexChar;
    UpperDigits(c / 16);
    UpperDigits(c % 16);
    UpperDigits(0);
    assert c / 16 / 16 == 0 && c / 16 % 16 == c / 16;
    NoughtIs();
  }

  lemma NoughtIs()
    ensures HexChar(0) == 48
  {
  }

  // ---------------------------------------------------------- where a string ends

  /** The place of the quote that ends a string from `i` on: a character behind a backslash does not. */
  function EndQuote(s: Text, i: nat): (r: nat)
    requires i <= |s|
    ensures i <= r <= |s|
    decreases |s| - i
  {
    if i == |s| || s[i] == QUOTE then i
    else if s[i] == BACKSLASH && i + 1 < |s| then EndQuote(s, i + 2)
    else EndQuote(s, i + 1)
  }

  lemma {:induction false} EndQuoteConcat(x: Text, s: Text, i: nat)
    requires i <= |s|
    ensures EndQuote(x + s, |x| + i) == |x| + EndQuote(s, i)
    decreases |s| - i
  {
    if i < |s| && s[i] != QUOTE {
      EndQuoteConcat(x, s, if s[i] == BACKSLASH && i + 1 < |s| then i + 2 else i + 1);
    }
  }

  /** The quote of a written escape never ends the string. */
  lemma EscapeGoesOn(c: byte, printable: byte -> bool, rest: Text)
    ensures var e := Escape(c, printable); EndQuote(e + rest, 0) == |e| + EndQuote(rest, 0)
  {
    hide HexChar;
    var e := Escape(c, printable);
    EndQuoteConcat(e, rest, 0);
    if ShortName(c) == 0 && !printable(c) {
      HexThereAndBack(c / 16 / 16 / 16);
      HexThereAndBack(c / 16 / 16 % 16);
      HexThereAndBack(c / 16 % 16);
      HexThereAndBack(c % 16);
      var s := e + rest;
      assert EndQuote(s, 0) == EndQuote(s, 2);
      assert EndQuote(s, 2) == EndQuote(s, 4);
      assert EndQuote(s, 4) == EndQuote(s, 6);
    }
  }

  /** A written string ends at the quote that is put behind it, whatever follows. */
  lemma {:induction false} WrittenStringsEnd(s: Text, printable: byte -> bool, rest: Text)
    ensures EndQuote(Escaped(s, printable) + [QUOTE] + rest, 0) == |Escaped(s, printable)|
  {
    hide Escape;
    if s == [] {
      assert [] + [QUOTE] + rest == [QUOTE] + rest;
    } else {
      var e, tail := Escape(s[0], printable), Escaped(s[1..], printable);
      assert e + tail + [QUOTE] + rest == e + (tail + [QUOTE] + rest);
      EscapeGoesOn(s[0], printable, tail + [QUOTE] + rest);
      WrittenStringsEnd(s[1..], printable, rest);
    }
  }
}
