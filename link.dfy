/**
 * How the two programs fit together at the level of symbol strings: the
 * sender's `morseTable` spells every letter and digit as the receiver's
 * `morseMap` does, and the echo the sender prints for one pass over a
 * message is converted back by `morseToAsciiString` into that message in
 * upper case.
 */
module MorseLink {
  import opened MorseAlphabet
  import opened MorseText
  import opened MorseSender

  // The rows of the two tables agree, checked four rows at a time.
  lemma TablesAgree0() ensures forall k :: 0 <= k < 4 ==> MorseTable[k] == MorseMap[k].morse { }
  lemma TablesAgree1() ensures forall k :: 4 <= k < 8 ==> MorseTable[k] == MorseMap[k].morse { }
  lemma TablesAgree2() ensures forall k :: 8 <= k < 12 ==> MorseTable[k] == MorseMap[k].morse { }
  lemma TablesAgree3() ensures forall k :: 12 <= k < 16 ==> MorseTable[k] == MorseMap[k].morse { }
  lemma TablesAgree4() ensures forall k :: 16 <= k < 20 ==> MorseTable[k] == MorseMap[k].morse { }
  lemma TablesAgree5() ensures forall k :: 20 <= k < 24 ==> MorseTable[k] == MorseMap[k].morse { }
  lemma TablesAgree6() ensures forall k :: 24 <= k < 28 ==> MorseTable[k] == MorseMap[k].morse { }
  lemma TablesAgree7() ensures forall k :: 28 <= k < 32 ==> MorseTable[k] == MorseMap[k].morse { }
  lemma TablesAgree8() ensures forall k :: 32 <= k < 36 ==> MorseTable[k] == MorseMap[k].morse { }

  /** `morseTable` is `morseMap` without its last row, the word separator. */
  lemma TablesAgree()
    ensures |MorseTable| == TABLE_SIZE == |MorseMap| - 1
    ensures forall k :: 0 <= k < TABLE_SIZE ==> MorseTable[k] == MorseMap[k].morse
  {
    TablesAgree0(); TablesAgree1(); TablesAgree2(); TablesAgree3(); TablesAgree4();
    TablesAgree5(); TablesAgree6(); TablesAgree7(); TablesAgree8();
  }

  /** The sender's row for a letter or digit is the receiver's row for its upper-case form. */
  lemma SameRow(c: char)
    requires IsAlnum(c)
    ensures IsUpperAlnum(Upper(c)) && TableIndex(c) == AlnumIndex(Upper(c))
    ensures Pattern(MorseTable, c) == MorseMap[AlnumIndex(Upper(c))].morse
  {
    TablesAgree();
  }

  /** The receiver's lookup of the pattern the sender flashes for a letter or digit is that character in upper case. */
  lemma PatternDecodes(c: char)
    requires IsAlnum(c)
    ensures AsciiOf(Pattern(MorseTable, c)) == Upper(c)
  {
    SameRow(c);
    AsciiOfAlnumPattern(Upper(c));
  }

  /** A letter or digit's pattern is a group the converter accepts. */
  lemma PatternIsGroup(c: char)
    requires IsAlnum(c)
    ensures var p := Pattern(MorseTable, c);
      && p != [] && NoSeparator(p) && |p| <= MAX_CHAR && PatternEcho(p) == p
  {
    TableRowsArePatterns();
    PatternIsGroupIn(MorseTable, c);
  }

  lemma PatternIsGroupIn(table: seq<string>, c: char)
    requires Shaped(table) && IsAlnum(c)
    requires forall k :: 0 <= k < |table| ==> |table[k]| <= 5
    ensures var p := Pattern(table, c);
      && p != [] && NoSeparator(p) && |p| <= MAX_CHAR && PatternEcho(p) == p
  {
    var p := Pattern(table, c);
    assert p == table[TableIndex(c)];
    RowIsGroup(p);
  }

  /** A row of dots and dashes is a group, and `flashMorse` prints it unchanged. */
  lemma RowIsGroup(p: string)
    requires forall j :: 0 <= j < |p| ==> p[j] in ".-"
    ensures NoSeparator(p) && PatternEcho(p) == p
  {
    SymbolsOfPattern(p);
    EchoIsSymbols(p);
  }

  /** The echo of a single character converts back to it in upper case; other characters are dropped. */
  lemma CharEchoDecodes(c: char)
    ensures IsAlnum(c) || c == ' ' ==> MorseToText(CharEcho(MorseTable, c)) == Text([Upper(c)])
    ensures !IsAlnum(c) && c != ' ' ==> MorseToText(CharEcho(MorseTable, c)) == Text([])
  {
    if IsAlnum(c) {
      var p := Pattern(MorseTable, c);
      PatternIsGroup(c);
      PatternDecodes(c);
      DecodeGroupThenSeparator(MorseMap, p, ' ');
    } else if c == ' ' {
      assert CharEcho(MorseTable, c) == "/" + " ";
      DecodeSplit(MorseMap, "/", " ");
      LoneSeparators(MorseMap);
    } else {
      assert CharEcho(MorseTable, c) == " ";
      LoneSeparators(MorseMap);
    }
  }

  /** Every character's echo, and so every non-empty message's echo, ends in a space. */
  lemma EchoEndsInSpace(message: string)
    requires message != []
    ensures var e := MessageEcho(MorseTable, message); e != [] && e[|e| - 1] == ' '
  {
  }

  /**
   * The round trip: for a message of letters, digits and spaces, converting
   * the echo of one pass over it gives back the message in upper case.
   */
  lemma RoundTrip(message: string)
    requires forall k :: 0 <= k < |message| ==> IsAlnum(message[k]) || message[k] == ' '
    ensures MorseToText(MessageEcho(MorseTable, message)) == Text(UpperString(message))
  {
    RoundTripDropsUnsupported(message);
    SupportedKeepsAll(message);
  }

  /** A message of letters, digits and spaces loses nothing. */
  lemma {:induction false} SupportedKeepsAll(message: string)
    requires forall k :: 0 <= k < |message| ==> IsAlnum(message[k]) || message[k] == ' '
    ensures Supported(message) == message
    decreases |message|
  {
    if message != [] {
      var init := message[..|message| - 1];
      SupportedKeepsAll(init);
      assert init + [message[|message| - 1]] == message;
    }
  }

  /** Characters the sender has no pattern for are lost: the round trip keeps the rest, in upper case. */
  lemma {:induction false} RoundTripDropsUnsupported(message: string)
    ensures MorseToText(MessageEcho(MorseTable, message)) == Text(UpperString(Supported(message)))
    decreases |message|
  {
    if message == [] {
      assert MessageEcho(MorseTable, message) == [];
    } else {
      var init, c := message[..|message| - 1], message[|message| - 1];
      var e := MessageEcho(MorseTable, init);
      RoundTripDropsUnsupported(init);
      if init != [] {
        EchoEndsInSpace(init);
      }
      DecodeSplit(MorseMap, e, CharEcho(MorseTable, c));
      CharEchoDecodes(c);
      if IsAlnum(c) || c == ' ' {
        assert Supported(message) == Supported(init) + [c];
        assert UpperString(Supported(message)) == UpperString(Supported(init)) + [Upper(c)];
      } else {
        assert Supported(message) == Supported(init);
      }
    }
  }

  /**
   * Filtering distributes over concatenation: with the contract of
   * `Supported` on single characters, the kept characters are those of `a`
   * followed by those of `b`, in order.
   */
  lemma {:induction false} SupportedConcat(a: string, b: string)
    ensures Supported(a + b) == Supported(a) + Supported(b)
    decreases |b|
  {
    if b == [] {
      assert a + b == a;
    } else {
      var init, c := b[..|b| - 1], b[|b| - 1];
      assert (a + b)[..|a + b| - 1] == a + init;
      assert (a + b)[|a + b| - 1] == c;
      SupportedConcat(a, init);
    }
  }

  /** A single character is kept exactly when it is a letter, a digit or a space. */
  lemma SupportedChar(c: char)
    ensures Supported([c]) == if IsAlnum(c) || c == ' ' then [c] else []
  {
    assert [c][..0] == [];
  }

  /** The letters, digits and spaces of `s`, in order. */
  function Supported(s: string): (r: string)
    ensures |r| <= |s|
    ensures forall k :: 0 <= k < |r| ==> IsAlnum(r[k]) || r[k] == ' '
  {
    if s == [] then []
    else Supported(s[..|s| - 1]) + (if IsAlnum(s[|s| - 1]) || s[|s| - 1] == ' ' then [s[|s| - 1]] else [])
  }
}
