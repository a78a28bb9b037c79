/** The text side of an address: alphabet (libcfxcore/types/cfxaddress/body.cpp), letter case and splitting
    (libcfxcore/common/util/string_util.cpp). */
module Cip37Text {
  import opened Numbers

  const ALPHABET: string := "abcdefghjkmnprstuvwxyz0123456789"

  /** The letters a to z but i, l, o and q. */
  predicate IsLetter(c: char) {
    'a' <= c <= 'z' && c != 'i' && c != 'l' && c != 'o' && c != 'q'
  }

  predicate IsDigit(c: char) {
    '0' <= c <= '9'
  }

  lemma FirstLetters(i: nat)
    requires i < 13
    ensures |ALPHABET| == 32
    ensures ALPHABET[i] as int == if i < 8 then 'a' as int + i else if i < 10 then 'j' as int + i - 8
                                  else if i < 12 then 'm' as int + i - 10 else 'p' as int
  {
  }

  lemma LastLetters(i: nat)
    requires 13 <= i < 22
    ensures |ALPHABET| == 32 && ALPHABET[i] as int == 'r' as int + i - 13
  {
  }

  lemma DigitPlaces(i: nat)
    requires 22 <= i < 32
    ensures |ALPHABET| == 32 && ALPHABET[i] as int == '0' as int + i - 22
  {
  }

  /** The letter of every symbol. */
  lemma LetterAt(i: nat)
    requires i < 32
    ensures |ALPHABET| == 32
    ensures ALPHABET[i] as int == if i < 8 then 'a' as int + i else if i < 10 then 'j' as int + i - 8
                                  else if i < 12 then 'm' as int + i - 10 else if i == 12 then 'p' as int
                                  else if i < 22 then 'r' as int + i - 13 else '0' as int + i - 22
  {
    hide ALPHABET;
    if i < 13 {
      FirstLetters(i);
    } else if i < 22 {
      LastLetters(i);
    } else {
      DigitPlaces(i);
    }
  }

  /** The alphabet holds those letters and the digits, and nothing else. */
  lemma AlphabetHolds(c: char)
    ensures c in ALPHABET <==> IsLetter(c) || IsDigit(c)
  {
    hide ALPHABET;
    if i: nat :| i < |ALPHABET| && ALPHABET[i] == c {
      ThirtyTwo();
      LetterAt(i);
    }
    if IsLetter(c) || IsDigit(c) {
      var i: nat := c as int - (if c <= '9' then '0' as int - 22 else if c < 'i' then 'a' as int
                                else if c < 'l' then 'j' as int - 8 else if c < 'o' then 'm' as int - 10
                                else if c < 'q' then 'p' as int - 12 else 'r' as int - 13);
      LetterAt(i);
      assert ALPHABET[i] == c;
    }
  }

  /** Letters in their order, then digits in theirs. */
  lemma AlphabetOrder(i: nat, j: nat)
    requires i < j < 32
    ensures |ALPHABET| == 32 && (IsDigit(ALPHABET[i]) ==> IsDigit(ALPHABET[j]))
    ensures IsLetter(ALPHABET[i]) == IsLetter(ALPHABET[j]) ==> ALPHABET[i] < ALPHABET[j]
  {
    hide ALPHABET;
    LetterAt(i);
    LetterAt(j);
  }

  /** Orders the alphabet: letters come first, then digits. */
  function Rank(c: char): int {
    if c >= 'a' then c as int - 'a' as int else c as int - '0' as int + 26
  }

  lemma RankGrows(i: nat)
    requires i < 31
    ensures |ALPHABET| == 32 && Rank(ALPHABET[i]) < Rank(ALPHABET[i + 1])
  {
    hide ALPHABET;
    LetterAt(i);
    LetterAt(i + 1);
  }

  lemma {:induction false} RankMonotone(i: nat, j: nat)
    requires i < j < 32
    ensures |ALPHABET| == 32 && Rank(ALPHABET[i]) < Rank(ALPHABET[j])
    decreases j
  {
    hide Rank;
    RankGrows(j - 1);
    if i < j - 1 {
      RankMonotone(i, j - 1);
    }
  }

  /** The place of `c` in the alphabet from `i` on; a character outside the alphabet reads as 0, like 'a'. */
  function IndexFrom(c: char, i: nat): (r: byte)
    requires i <= 32
    ensures r < 32
    decreases 32 - i
  {
    if i == 32 then 0 else if ALPHABET[i] == c then i else IndexFrom(c, i + 1)
  }

  function Index(c: char): (r: byte)
    ensures r < 32
  {
    IndexFrom(c, 0)
  }

  lemma {:induction false} IndexFromFinds(i: nat, k: nat)
    requires k <= i < 32
    ensures |ALPHABET| == 32 && IndexFrom(ALPHABET[i], k) == i
    decreases i - k
  {
    hide ALPHABET;
    ThirtyTwo();
    if k < i {
      RankMonotone(k, i);
      IndexFromFinds(i, k + 1);
    }
  }

  lemma ThirtyTwo()
    ensures |ALPHABET| == 32
  {
  }

  /** Every symbol has a letter of its own. */
  lemma IndexOfLetter(i: nat)
    requires i < 32
    ensures |ALPHABET| == 32 && Index(ALPHABET[i]) == i
  {
    IndexFromFinds(i, 0);
  }

  lemma {:induction false} IndexFromIs(c: char, k: nat)
    requires k <= 32
    ensures |ALPHABET| == 32
    ensures c in ALPHABET[k..] ==> ALPHABET[IndexFrom(c, k)] == c
    ensures c !in ALPHABET[k..] ==> IndexFrom(c, k) == 0
    decreases 32 - k
  {
    hide ALPHABET;
    ThirtyTwo();
    if k < 32 {
      IndexFromIs(c, k + 1);
      assert ALPHABET[k..] == [ALPHABET[k]] + ALPHABET[k + 1..];
    }
  }

  /** A character is its symbol's letter exactly when it is a letter at all; every other one reads as 'a' does. */
  lemma LetterOfIndex(c: char)
    ensures |ALPHABET| == 32
    ensures ALPHABET[Index(c)] == c <==> c in ALPHABET
    ensures c !in ALPHABET ==> Index(c) == 0 == Index('a')
  {
    hide IndexFrom, ALPHABET;
    ThirtyTwo();
    IndexFromIs(c, 0);
    assert ALPHABET[0..] == ALPHABET;
    IndexOfLetter(0);
    FirstLetter();
  }

  lemma FirstLetter()
    ensures |ALPHABET| > 0 && ALPHABET[0] == 'a'
  {
  }

  function Indices(s: string): (r: seq<byte>)
    ensures |r| == |s| && AllBelow(r, 32)
  {
    seq(|s|, i requires 0 <= i < |s| => Index(s[i]))
  }

  function Letters(data: seq<byte>): (r: string)
    requires AllBelow(data, 32)
    ensures |r| == |data|
  {
    ThirtyTwo();
    seq(|data|, i requires 0 <= i < |data| => ALPHABET[data[i]])
  }

  ghost predicate InAlphabet(s: string) {
    forall i :: 0 <= i < |s| ==> s[i] in ALPHABET
  }

  lemma IndicesOfLetters(data: seq<byte>)
    requires AllBelow(data, 32)
    ensures Indices(Letters(data)) == data && InAlphabet(Letters(data))
  {
    hide Index, ALPHABET;
    ThirtyTwo();
    forall i | 0 <= i < |data| ensures Index(ALPHABET[data[i]]) == data[i] && ALPHABET[data[i]] in ALPHABET {
      IndexOfLetter(data[i]);
    }
  }

  /** Reading a text and writing it back gives it unchanged exactly when it keeps to the alphabet. */
  lemma LettersOfIndices(s: string)
    ensures Letters(Indices(s)) == s <==> InAlphabet(s)
  {
    hide Index, ALPHABET;
    ThirtyTwo();
    forall i | 0 <= i < |s| ensures ALPHABET[Index(s[i])] == s[i] <==> s[i] in ALPHABET {
      LetterOfIndex(s[i]);
    }
    var t := Letters(Indices(s));
    assert forall i :: 0 <= i < |s| ==> t[i] == ALPHABET[Index(s[i])];
  }

  /** Body::init. */
  method BuildIndex() returns (m: map<char, byte>)
    ensures forall c :: c in m <==> c in ALPHABET
    ensures forall c :: c in m ==> m[c] == Index(c)
  {
    hide Index, ALPHABET;
    ThirtyTwo();
    m := map[];
    for i := 0 to |ALPHABET|
      invariant forall c :: c in m <==> c in ALPHABET[..i]
      invariant forall c :: c in m ==> m[c] == Index(c)
    {
      IndexOfLetter(i);
      assert ALPHABET[..i + 1] == ALPHABET[..i] + [ALPHABET[i]];
      m := m[ALPHABET[i] := i];
    }
    assert ALPHABET[..|ALPHABET|] == ALPHABET;
  }

  /** The constructor of Body from text; looking a character up enters it into the map with 0 when it is missing. */
  method BodySymbols(base32: string) returns (body: seq<byte>)
    ensures body == Indices(base32)
  {
    hide Index, ALPHABET;
    var m := BuildIndex();
    body := [];
    for i := 0 to |base32|
      invariant |body| == i && forall j :: 0 <= j < i ==> body[j] == Index(base32[j])
      invariant forall c :: c in m ==> m[c] == Index(c)
      invariant forall c :: c in ALPHABET ==> c in m
    {
      if base32[i] !in m {
        LetterOfIndex(base32[i]);
        m := m[base32[i] := 0];
      }
      body := body + [m[base32[i]]];
    }
  }

  /** bits5sToString. */
  method BitsToString(data: seq<byte>) returns (r: string)
    requires AllBelow(data, 32)
    ensures r == Letters(data)
  {
    hide ALPHABET;
    ThirtyTwo();
    r := "";
    for i := 0 to |data|
      invariant |r| == i && forall j :: 0 <= j < i ==> r[j] == ALPHABET[data[j]]
    {
      r := r + [ALPHABET[data[i]]];
    }
  }

  // --------------------------------------------------------------- letter case

  function LowerChar(c: char): char {
    if 'A' <= c <= 'Z' then (c as int + 32) as char else c
  }

  function UpperChar(c: char): char {
    if 'a' <= c <= 'z' then (c as int - 32) as char else c
  }

  function Lower(s: string): (r: string)
    ensures |r| == |s|
  {
    seq(|s|, i requires 0 <= i < |s| => LowerChar(s[i]))
  }

  function Upper(s: string): (r: string)
    ensures |r| == |s|
  {
    seq(|s|, i requires 0 <= i < |s| => UpperChar(s[i]))
  }

  /** No upper-case letter. */
  ghost predicate IsLower(s: string) {
    forall i :: 0 <= i < |s| ==> !('A' <= s[i] <= 'Z')
  }

  /** What letter case does to a character. */
  lemma CaseIs(i: nat, c: char)
    requires i < 26
    ensures LowerChar("ABCDEFGHIJKLMNOPQRSTUVWXYZ"[i]) == "abcdefghijklmnopqrstuvwxyz"[i]
    ensures UpperChar("abcdefghijklmnopqrstuvwxyz"[i]) == "ABCDEFGHIJKLMNOPQRSTUVWXYZ"[i]
    ensures LowerChar(c) != c ==> 'A' <= c <= 'Z'
    ensures UpperChar(c) != c ==> 'a' <= c <= 'z'
  {
    assert "ABCDEFGHIJKLMNOPQRSTUVWXYZ"[i] as int == 'A' as int + i;
    assert "abcdefghijklmnopqrstuvwxyz"[i] as int == 'a' as int + i;
  }

  lemma LowerFixes(s: string)
    ensures Lower(s) == s <==> IsLower(s)
    ensures IsLower(Lower(s))
  {
    if Lower(s) == s {
      forall i | 0 <= i < |s| ensures !('A' <= s[i] <= 'Z') {
        assert Lower(s)[i] == LowerChar(s[i]);
      }
    }
  }

  lemma {:induction false} LettersAreLower(data: seq<byte>)
    requires AllBelow(data, 32)
    ensures IsLower(Letters(data)) && ':' !in Letters(data)
  {
    hide ALPHABET;
    ThirtyTwo();
    AlphabetIsLower();
  }

  lemma AlphabetIsLower()
    ensures |ALPHABET| == 32 && forall i :: 0 <= i < 32 ==> !('A' <= ALPHABET[i] <= 'Z') && ALPHABET[i] != ':'
  {
    forall i | 0 <= i < 32 ensures !('A' <= ALPHABET[i] <= 'Z') && ALPHABET[i] != ':' {
      LowerLetter(i);
    }
  }

  lemma LowerLetter(i: nat)
    requires i < 32
    ensures |ALPHABET| == 32 && !('A' <= ALPHABET[i] <= 'Z') && ALPHABET[i] != ':'
  {
  }

  // ---------------------------------------------------------------- splitting

  /** string::find: the first place of `a` at or behind `from`, or the end. */
  function Find(s: string, a: char, from: nat): (r: nat)
    requires from <= |s|
    ensures from <= r <= |s|
    decreases |s| - from
  {
    if from == |s| || s[from] == a then from else Find(s, a, from + 1)
  }

  /** The parts of `s` between the characters `a`, from place `from` on. */
  function Parts(s: string, a: char, from: nat): (r: seq<string>)
    requires from <= |s|
    ensures |r| > 0
    decreases |s| - from
  {
    var k := Find(s, a, from);
    if k == |s| then [s[from..]] else [s[from..k]] + Parts(s, a, k + 1)
  }

  /** split_string. */
  method SplitString(s: string, a: char) returns (parts: seq<string>)
    ensures parts == Parts(s, a, 0)
  {
    parts := [];
    var pos1, pos2 := 0, Find(s, a, 0);
    while pos2 != |s|
      invariant 0 <= pos1 <= |s| && pos2 == Find(s, a, pos1)
      invariant Parts(s, a, 0) == parts + Parts(s, a, pos1)
      decreases |s| - pos1
    {
      parts := parts + [s[pos1..pos2]];
      pos1 := pos2 + 1;
      pos2 := Find(s, a, pos1);
    }
    parts := parts + [s[pos1..]];
  }

  lemma {:induction false} FindIs(s: string, a: char, from: nat, k: nat)
    requires from <= k <= |s| && (k == |s| || s[k] == a) && forall i :: from <= i < k ==> s[i] != a
    ensures Find(s, a, from) == k
    decreases k - from
  {
    if from < k {
      FindIs(s, a, from + 1, k);
    }
  }

  lemma LastPart(s: string, a: char, from: nat)
    requires from <= |s| && a !in s[from..]
    ensures Parts(s, a, from) == [s[from..]]
  {
    forall i | from <= i < |s| ensures s[i] != a {
      assert s[i] == s[from..][i - from];
    }
    FindIs(s, a, from, |s|);
  }

  /** A part without the separator in front. */
  lemma FirstPart(s: string, a: char, from: nat, k: nat)
    requires from <= k < |s| && s[k] == a && a !in s[from..k]
    ensures Parts(s, a, from) == [s[from..k]] + Parts(s, a, k + 1)
  {
    forall i | from <= i < k ensures s[i] != a {
      assert s[i] == s[from..k][i - from];
    }
    FindIs(s, a, from, k);
  }

  lemma TwoParts(x: string, y: string)
    requires ':' !in x && ':' !in y
    ensures Parts(x + ":" + y, ':', 0) == [x, y]
  {
    var s := x + ":" + y;
    assert s[0..|x|] == x && s[|x| + 1..] == y;
    FirstPart(s, ':', 0, |x|);
    LastPart(s, ':', |x| + 1);
  }

  lemma Pieces(x: string, y: string, z: string)
    ensures var s, k := x + ":" + y + ":" + z, |x| + 1 + |y|;
            && k < |s| && s[|x|] == ':' == s[k]
            && s[0..|x|] == x && s[|x| + 1..k] == y && s[k + 1..] == z
  {
    var s, k := x + ":" + y + ":" + z, |x| + 1 + |y|;
    assert s == (x + ":") + (y + ":" + z);
    assert s[|x| + 1..] == y + ":" + z;
    assert s[|x| + 1..k] == s[|x| + 1..][..|y|] == y;
    assert s == (x + ":" + y + ":") + z;
  }

  lemma ThreeParts(x: string, y: string, z: string)
    requires ':' !in x && ':' !in y && ':' !in z
    ensures Parts(x + ":" + y + ":" + z, ':', 0) == [x, y, z]
  {
    hide Parts;
    Pieces(x, y, z);
    var s, k := x + ":" + y + ":" + z, |x| + 1 + |y|;
    FirstPart(s, ':', 0, |x|);
    FirstPart(s, ':', |x| + 1, k);
    LastPart(s, ':', k + 1);
  }

  /** The parts, with the separators between them. */
  function Unsplit(parts: seq<string>, a: char): string
    requires parts != []
  {
    if |parts| == 1 then parts[0] else parts[0] + [a] + Unsplit(parts[1..], a)
  }

  /** Splitting loses nothing. */
  lemma {:induction false} UnsplitParts(s: string, a: char, from: nat)
    requires from <= |s|
    ensures Unsplit(Parts(s, a, from), a) == s[from..]
    decreases |s| - from
  {
    var k := Find(s, a, from);
    if k < |s| {
      FoundIs(s, a, from);
      UnsplitParts(s, a, k + 1);
      assert Parts(s, a, from)[1..] == Parts(s, a, k + 1);
      assert s[from..] == s[from..k] + [a] + s[k + 1..];
    }
  }

  lemma {:induction false} FoundIs(s: string, a: char, from: nat)
    requires from <= |s|
    ensures Find(s, a, from) < |s| ==> s[Find(s, a, from)] == a
    decreases |s| - from
  {
    if from < |s| && s[from] != a {
      FoundIs(s, a, from + 1);
    }
  }

  lemma {:induction false} FoundFirst(s: string, a: char, from: nat)
    requires from <= |s|
    ensures a !in s[from..Find(s, a, from)]
    decreases |s| - from
  {
    if from < |s| && s[from] != a {
      FoundFirst(s, a, from + 1);
      var k := Find(s, a, from);
      assert s[from..k] == [s[from]] + s[from + 1..k];
    }
  }

  /** No part holds the separator, and every character of a part is one of the text. */
  lemma {:induction false} PartsAreClean(s: string, a: char, from: nat, i: nat)
    requires from <= |s| && i < |Parts(s, a, from)|
    ensures var part := Parts(s, a, from)[i]; a !in part && forall c :: c in part ==> c in s
    decreases |s| - from
  {
    var k := Find(s, a, from);
    FoundFirst(s, a, from);
    if k < |s| {
      if i > 0 {
        PartsAreClean(s, a, k + 1, i - 1);
      }
    }
  }

  /** Where the last part of `s` begins. */
  function LastStart(s: string, a: char, from: nat): (r: nat)
    requires from <= |s|
    ensures from <= r <= |s|
    decreases |s| - from
  {
    if Find(s, a, from) == |s| then from else LastStart(s, a, Find(s, a, from) + 1)
  }

  /** The parts before the last one. */
  function Front(s: string, a: char, from: nat): seq<string>
    requires from <= |s|
    decreases |s| - from
  {
    var k := Find(s, a, from);
    if k == |s| then [] else [s[from..k]] + Front(s, a, k + 1)
  }

  lemma {:induction false} FrontAndLast(s: string, a: char, from: nat)
    requires from <= |s|
    ensures Parts(s, a, from) == Front(s, a, from) + [s[LastStart(s, a, from)..]]
    decreases |s| - from
  {
    var k := Find(s, a, from);
    if k < |s| {
      FrontAndLast(s, a, k + 1);
    }
  }

  lemma FindAgain(s: string, t: string, a: char, from: nat)
    requires from <= |s| == |t| && Find(s, a, from) < |s|
    requires forall i :: from <= i <= Find(s, a, from) ==> t[i] == s[i]
    ensures Find(t, a, from) == Find(s, a, from)
  {
    var k := Find(s, a, from);
    FoundIs(s, a, from);
    FoundFirst(s, a, from);
    forall i | from <= i < k ensures t[i] != a {
      assert s[i] == s[from..k][i - from];
    }
    FindIs(t, a, from, k);
  }

  lemma LastPartHere(s: string, a: char, from: nat)
    requires from <= |s|
    ensures var k := Find(s, a, from);
            if k == |s| then Front(s, a, from) == [] && LastStart(s, a, from) == from
            else Front(s, a, from) == [s[from..k]] + Front(s, a, k + 1) && LastStart(s, a, from) == LastStart(s, a, k + 1)
  {
    hide Find;
  }

  /** Changing the last part, but bringing no separator into it, changes that part and no other. */
  lemma {:induction false} LastPartChanged(s: string, t: string, a: char, from: nat)
    requires from <= |s| == |t|
    requires forall i :: from <= i < LastStart(s, a, from) ==> t[i] == s[i]
    requires a !in t[LastStart(s, a, from)..]
    ensures Front(t, a, from) == Front(s, a, from) && LastStart(t, a, from) == LastStart(s, a, from)
    decreases |s| - from
  {
    hide Find, Front, LastStart;
    var k := Find(s, a, from);
    LastPartHere(s, a, from);
    LastPartHere(t, a, from);
    if k < |s| {
      FindAgain(s, t, a, from);
      LastPartChanged(s, t, a, k + 1);
      assert t[from..k] == s[from..k];
    } else {
      forall i | from <= i < |t| ensures t[i] != a {
        assert t[i] == t[from..][i - from];
      }
      FindIs(t, a, from, |t|);
    }
  }
}
