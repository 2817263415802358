/**
 * The receiver's Morse alphabet: the `morseMap` table of lab5_2 and the
 * linear lookup `morseToAscii` over it.
 */
module MorseAlphabet {

  /** One row of the lookup table: a dot/dash pattern and the character it stands for. */
  datatype Entry = Entry(morse: string, ascii: char)

  /** Longest pattern the receiver's pending-group buffer `morseChar` can hold. */
  const MAX_CHAR := 6

  /** Returned by the lookup for a pattern that is not in the table. */
  const UNKNOWN := '?'

  /** The 37-row table, in the order of the source: A-Z, 0-9, then the word separator. */
  const MorseMap: seq<Entry> := [
    Entry(".-", 'A'),    Entry("-...", 'B'),  Entry("-.-.", 'C'),  Entry("-..", 'D'),   Entry(".", 'E'),
    Entry("..-.", 'F'),  Entry("--.", 'G'),   Entry("....", 'H'),  Entry("..", 'I'),    Entry(".---", 'J'),
    Entry("-.-", 'K'),   Entry(".-..", 'L'),  Entry("--", 'M'),    Entry("-.", 'N'),    Entry("---", 'O'),
    Entry(".--.", 'P'),  Entry("--.-", 'Q'),  Entry(".-.", 'R'),   Entry("...", 'S'),   Entry("-", 'T'),
    Entry("..-", 'U'),   Entry("...-", 'V'),  Entry(".--", 'W'),   Entry("-..-", 'X'),  Entry("-.--", 'Y'),
    Entry("--..", 'Z'),  Entry("-----", '0'), Entry(".----", '1'), Entry("..---", '2'), Entry("...--", '3'),
    Entry("....-", '4'), Entry(".....", '5'), Entry("-....", '6'), Entry("--...", '7'), Entry("---..", '8'),
    Entry("----.", '9'), Entry("/", ' ')
  ]

  /** The characters the table spells out, A-Z then 0-9. */
  predicate IsUpperAlnum(c: char) {
    ('A' <= c <= 'Z') || ('0' <= c <= '9')
  }

  /** Position of an upper-case letter or digit in the A-Z, 0-9 order of the table. */
  function AlnumIndex(c: char): (k: nat)
    requires IsUpperAlnum(c)
    ensures k < |MorseMap| - 1
  {
    if 'A' <= c <= 'Z' then c as int - 'A' as int else 26 + c as int - '0' as int
  }

  /** No two rows of `table` share a pattern. */
  ghost predicate PatternsUnique(table: seq<Entry>) {
    forall i, j :: 0 <= i < j < |table| ==> table[i].morse != table[j].morse
  }

  /** The first row of `table`, at or after `from`, whose pattern is `pattern`; |table| when there is none. */
  function FirstMatch(table: seq<Entry>, pattern: string, from: nat): (i: nat)
    requires from <= |table|
    ensures from <= i <= |table|
    ensures i < |table| ==> table[i].morse == pattern
    ensures forall j :: from <= j < i ==> table[j].morse != pattern
    decreases |table| - from
  {
    if from == |table| then from
    else if table[from].morse == pattern then from
    else FirstMatch(table, pattern, from + 1)
  }

  /** The character of the first row of `table` matching `pattern`, or '?'. */
  function Lookup(table: seq<Entry>, pattern: string): char {
    var i := FirstMatch(table, pattern, 0);
    if i < |table| then table[i].ascii else UNKNOWN
  }

  /** What `morseToAscii` returns for `pattern`. */
  function AsciiOf(pattern: string): char {
    Lookup(MorseMap, pattern)
  }

  /**
   * The loop of `morseToAscii`: a linear search over `table` with an early
   * return on the first row whose pattern equals `morse`.
   */
  method Search(table: seq<Entry>, morse: string) returns (c: char)
    ensures c == Lookup(table, morse)
  {
    for i := 0 to |table|
      invariant forall j :: 0 <= j < i ==> table[j].morse != morse
    {
      if table[i].morse == morse {
        return table[i].ascii;
      }
    }
    return UNKNOWN;
  }

  /** morseToAscii: the search run over `morseMap`. */
  method MorseToAscii(morse: string) returns (c: char)
    ensures c == AsciiOf(morse)
  {
    c := Search(MorseMap, morse);
  }

  /** The lookup gives '?' exactly when no row matches, and otherwise the first matching row's character. */
  lemma LookupIsFirstMatch(table: seq<Entry>, pattern: string)
    requires forall i :: 0 <= i < |table| ==> table[i].ascii != UNKNOWN
    ensures Lookup(table, pattern) == UNKNOWN <==> forall i :: 0 <= i < |table| ==> table[i].morse != pattern
    ensures forall i :: 0 <= i < |table| && table[i].morse == pattern &&
                        (forall j :: 0 <= j < i ==> table[j].morse != pattern) ==>
                          Lookup(table, pattern) == table[i].ascii
  {
    var k := FirstMatch(table, pattern, 0);
    forall i | 0 <= i < |table| && table[i].morse == pattern &&
               (forall j :: 0 <= j < i ==> table[j].morse != pattern)
      ensures Lookup(table, pattern) == table[i].ascii
    {
      assert k == i;
    }
  }

  /** In a table whose patterns are unique, looking up a row's pattern gives back that row's character. */
  lemma {:induction false} LookupOfRow(table: seq<Entry>, i: nat)
    requires PatternsUnique(table)
    requires i < |table|
    ensures Lookup(table, table[i].morse) == table[i].ascii
  {
    var k := FirstMatch(table, table[i].morse, 0);
    assert k <= i;
  }

  // A numeric key of a pattern of at most six characters (base 4, one digit
  // per position, 0 for an absent position), used to prove that the patterns
  // of the table are pairwise distinct without comparing them pairwise.

  function Digit(p: string, k: nat): int {
    if k < |p| then (if p[k] == '.' then 1 else if p[k] == '-' then 2 else 3) else 0
  }

  function Key(p: string): int {
    Digit(p, 0) + 4 * Digit(p, 1) + 16 * Digit(p, 2) + 64 * Digit(p, 3) + 256 * Digit(p, 4) + 1024 * Digit(p, 5)
  }

  /** The row whose pattern has key `key` (or -1). */
  function RowOfKey(key: int): int {
    match key
      case 9 => 0 case 86 => 1 case 102 => 2 case 22 => 3 case 1 => 4 case 101 => 5 case 26 => 6
      case 85 => 7 case 5 => 8 case 169 => 9 case 38 => 10 case 89 => 11 case 10 => 12 case 6 => 13
      case 42 => 14 case 105 => 15 case 154 => 16 case 25 => 17 case 21 => 18 case 2 => 19
      case 37 => 20 case 149 => 21 case 41 => 22 case 150 => 23 case 166 => 24 case 90 => 25
      case 682 => 26 case 681 => 27 case 677 => 28 case 661 => 29 case 597 => 30 case 341 => 31
      case 342 => 32 case 346 => 33 case 362 => 34 case 426 => 35 case 3 => 36
      case _ => -1
  }

  // The key of each row identifies it, checked four rows at a time.
  lemma KeysIdentifyRows0() ensures forall i :: 0 <= i < 4 ==> RowOfKey(Key(MorseMap[i].morse)) == i { }
  lemma KeysIdentifyRows1() ensures forall i :: 4 <= i < 8 ==> RowOfKey(Key(MorseMap[i].morse)) == i { }
  lemma KeysIdentifyRows2() ensures forall i :: 8 <= i < 12 ==> RowOfKey(Key(MorseMap[i].morse)) == i { }
  lemma KeysIdentifyRows3() ensures forall i :: 12 <= i < 16 ==> RowOfKey(Key(MorseMap[i].morse)) == i { }
  lemma KeysIdentifyRows4() ensures forall i :: 16 <= i < 20 ==> RowOfKey(Key(MorseMap[i].morse)) == i { }
  lemma KeysIdentifyRows5() ensures forall i :: 20 <= i < 24 ==> RowOfKey(Key(MorseMap[i].morse)) == i { }
  lemma KeysIdentifyRows6() ensures forall i :: 24 <= i < 28 ==> RowOfKey(Key(MorseMap[i].morse)) == i { }
  lemma KeysIdentifyRows7() ensures forall i :: 28 <= i < 32 ==> RowOfKey(Key(MorseMap[i].morse)) == i { }
  lemma KeysIdentifyRows8() ensures forall i :: 32 <= i < 36 ==> RowOfKey(Key(MorseMap[i].morse)) == i { }
  lemma KeysIdentifyRows9() ensures forall i :: 36 <= i < 37 ==> RowOfKey(Key(MorseMap[i].morse)) == i { }

  /** No two rows share a pattern, so the lookup depends on the pattern alone. */
  lemma PatternsDistinct()
    ensures PatternsUnique(MorseMap)
  {
    KeysIdentifyRows0(); KeysIdentifyRows1(); KeysIdentifyRows2(); KeysIdentifyRows3(); KeysIdentifyRows4();
    KeysIdentifyRows5(); KeysIdentifyRows6(); KeysIdentifyRows7(); KeysIdentifyRows8(); KeysIdentifyRows9();
  }

  /** Every pattern is a non-empty sequence of at most MAX_CHAR symbols, except the '/' row. */
  lemma PatternsAreShortSymbolStrings()
    ensures forall i :: 0 <= i < |MorseMap| - 1 ==>
              0 < |MorseMap[i].morse| <= MAX_CHAR &&
              forall k :: 0 <= k < |MorseMap[i].morse| ==> MorseMap[i].morse[k] in ".-"
    ensures MorseMap[|MorseMap| - 1] == Entry("/", ' ')
  {
  }

  /** The character column of the table: A-Z, then 0-9, then the space of the '/' row. */
  lemma CharacterColumn()
    ensures forall i :: 0 <= i < 26 ==> MorseMap[i].ascii as int == 'A' as int + i
    ensures forall i :: 26 <= i < 36 ==> MorseMap[i].ascii as int == '0' as int + i - 26
    ensures MorseMap[36].ascii == ' '
  {
  }

  /** Each of A-Z and 0-9 is the character of exactly one row, the one at its alphabet position. */
  lemma CharacterAppearsOnce(c: char)
    requires IsUpperAlnum(c)
    ensures MorseMap[AlnumIndex(c)].ascii == c
    ensures forall i :: 0 <= i < |MorseMap| && MorseMap[i].ascii == c ==> i == AlnumIndex(c)
  {
    CharacterColumn();
  }

  /** Looking up the pattern of a letter or digit gives that letter or digit back. */
  lemma AsciiOfAlnumPattern(c: char)
    requires IsUpperAlnum(c)
    ensures AsciiOf(MorseMap[AlnumIndex(c)].morse) == c
  {
    PatternsDistinct();
    LookupOfRow(MorseMap, AlnumIndex(c));
    CharacterAppearsOnce(c);
  }
}
