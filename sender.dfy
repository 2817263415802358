/**
 * The sender of lab5_1 (`send_faster.c`): a message is flashed on an LED as
 * Morse code, and the same code is echoed as text. The LED's behaviour is a
 * trace of pulses: `High(ms)` while the LED is on for `ms` milliseconds and
 * `Low(ms)` while it is off (a `digitalWrite(LOW)` followed by a delay, or a
 * bare delay while the LED is already off).
 */
module MorseSender {

  const DOT_DURATION: nat := 20
  const DASH_DURATION: nat := DOT_DURATION * 3
  const SYMBOL_SPACE: nat := DOT_DURATION
  const LETTER_SPACE: nat := DOT_DURATION * 3
  const WORD_SPACE: nat := DOT_DURATION * 7
  /** The pause after each repetition of the whole message. */
  const REPEAT_PAUSE: nat := WORD_SPACE + 1000

  /** `morseTable`: the patterns of A-Z, then of 0-9. */
  const MorseTable: seq<string> := [
    ".-", "-...", "-.-.", "-..", ".", "..-.", "--.", "....", "..", ".---",
    "-.-", ".-..", "--", "-.", "---", ".--.", "--.-", ".-.", "...", "-",
    "..-", "...-", ".--", "-..-", "-.--", "--..",
    "-----", ".----", "..---", "...--", "....-", ".....", "-....", "--...", "---..", "----."
  ]

  const TABLE_SIZE := 36

  datatype Pulse = High(ms: nat) | Low(ms: nat)

  /** A table the sender can use: one row per letter and digit, each a non-empty dot/dash pattern. */
  ghost predicate Shaped(table: seq<string>) {
    && |table| == TABLE_SIZE
    && forall k :: 0 <= k < |table| ==>
         0 < |table[k]| && forall j :: 0 <= j < |table[k]| ==> table[k][j] in ".-"
  }

  /** The characters the sender has a pattern for: letters of either case, and digits. */
  predicate IsAlnum(c: char) {
    ('a' <= c <= 'z') || ('A' <= c <= 'Z') || ('0' <= c <= '9')
  }

  /** The upper-case form of an ASCII lower-case letter; every other character is kept. */
  function Upper(c: char): char {
    if 'a' <= c <= 'z' then (c as int - 'a' as int + 'A' as int) as char else c
  }

  /**
   * The message as `morseTable` indexes it: every lower-case letter becomes the
   * upper-case letter at the same alphabet position, which is the row lines
   * 55-58 use for both, and every other character is kept.
   */
  function UpperString(s: string): (u: string)
    ensures |u| == |s|
    ensures forall k :: 0 <= k < |u| ==> !('a' <= u[k] <= 'z')
    ensures forall k :: 0 <= k < |s| && !('a' <= s[k] <= 'z') ==> u[k] == s[k]
    ensures forall k :: 0 <= k < |s| && 'a' <= s[k] <= 'z' ==>
              'A' <= u[k] <= 'Z' && u[k] as int - 'A' as int == s[k] as int - 'a' as int
  {
    seq(|s|, k requires 0 <= k < |s| => Upper(s[k]))
  }

  /** The row of `morseTable` the sender uses for `c`. */
  function TableIndex(c: char): (k: nat)
    requires IsAlnum(c)
    ensures k < TABLE_SIZE
  {
    if 'a' <= c <= 'z' then c as int - 'a' as int
    else if 'A' <= c <= 'Z' then c as int - 'A' as int
    else c as int - '0' as int + 26
  }

  /** The pattern of `table` flashed for `c`: none for a character without a row. */
  function Pattern(table: seq<string>, c: char): string {
    if IsAlnum(c) && TableIndex(c) < |table| then table[TableIndex(c)] else ""
  }

  // ---------------------------------------------------------------------
  // What the sender emits, as functions of its input.

  /** `flashDot` / `flashDash` for a pattern character; nothing for any other character. */
  function SymbolTrace(c: char): seq<Pulse> {
    if c == '.' then [High(DOT_DURATION), Low(SYMBOL_SPACE)]
    else if c == '-' then [High(DASH_DURATION), Low(SYMBOL_SPACE)]
    else []
  }

  function SymbolEcho(c: char): string {
    if c == '.' || c == '-' then [c] else ""
  }

  /** What `flashMorse` flashes for `morse`, one character after another. */
  function PatternTrace(morse: string): seq<Pulse> {
    if morse == [] then [] else PatternTrace(morse[..|morse| - 1]) + SymbolTrace(morse[|morse| - 1])
  }

  /** What `flashMorse` prints for `morse`. */
  function PatternEcho(morse: string): string {
    if morse == [] then [] else PatternEcho(morse[..|morse| - 1]) + SymbolEcho(morse[|morse| - 1])
  }

  /** One character of the message: a word gap for a space, otherwise its pattern and a letter gap. */
  function CharTrace(table: seq<string>, c: char): seq<Pulse> {
    if c == ' ' then [Low(WORD_SPACE)] else PatternTrace(Pattern(table, c)) + [Low(LETTER_SPACE)]
  }

  function CharEcho(table: seq<string>, c: char): string {
    if c == ' ' then "/ " else PatternEcho(Pattern(table, c)) + " "
  }

  /** One pass over the message. */
  function MessageTrace(table: seq<string>, message: string): seq<Pulse> {
    if message == [] then []
    else MessageTrace(table, message[..|message| - 1]) + CharTrace(table, message[|message| - 1])
  }

  function MessageEcho(table: seq<string>, message: string): string {
    if message == [] then []
    else MessageEcho(table, message[..|message| - 1]) + CharEcho(table, message[|message| - 1])
  }

  /** One pass over the message followed by the pause between repetitions. */
  function RepetitionTrace(table: seq<string>, message: string): seq<Pulse> {
    MessageTrace(table, message) + [Low(REPEAT_PAUSE)]
  }

  function RepetitionEcho(table: seq<string>, message: string): string {
    MessageEcho(table, message) + "\n"
  }

  /** `sendMorse(message, times)` with the rows of `table`: the repetitions one after another. */
  function SendTrace(table: seq<string>, message: string, times: int): seq<Pulse>
    decreases times
  {
    if times <= 0 then [] else SendTrace(table, message, times - 1) + RepetitionTrace(table, message)
  }

  function SendEcho(table: seq<string>, message: string, times: int): string
    decreases times
  {
    if times <= 0 then [] else SendEcho(table, message, times - 1) + RepetitionEcho(table, message)
  }

  // ---------------------------------------------------------------------
  // Reference definitions the sender is compared with.

  /** The pattern characters of `s`, in order: `s` with every other character filtered out. */
  function Symbols(s: string): (r: string)
    ensures |r| <= |s|
    ensures forall k :: 0 <= k < |r| ==> r[k] == '.' || r[k] == '-'
  {
    if s == [] then []
    else (if s[0] in ".-" then [s[0]] else []) + Symbols(s[1..])
  }

  /** The filter read from the back: one more character adds itself when it is a dot or a dash. */
  lemma {:induction false} SymbolsSnoc(s: string, c: char)
    ensures Symbols(s + [c]) == Symbols(s) + (if c in ".-" then [c] else [])
    decreases |s|
  {
    if s == [] {
      assert [] + [c] == [c];
      assert [c][1..] == [];
    } else {
      assert (s + [c])[0] == s[0];
      assert (s + [c])[1..] == s[1..] + [c];
      SymbolsSnoc(s[1..], c);
    }
  }

  function Duration(c: char): nat {
    if c == '.' then DOT_DURATION else DASH_DURATION
  }

  /** `n` copies of `s`, built from the front. */
  function Copies<T>(s: seq<T>, n: int): seq<T>
    decreases n
  {
    if n <= 0 then [] else s + Copies(s, n - 1)
  }

  predicate HasHigh(trace: seq<Pulse>) {
    exists k :: 0 <= k < |trace| && trace[k].High?
  }

  // ---------------------------------------------------------------------
  // Properties.

  /** The durations: a dash lasts three dots, the gaps one, three and seven dots. */
  lemma Durations()
    ensures DASH_DURATION == 3 * DOT_DURATION && SYMBOL_SPACE == DOT_DURATION
    ensures LETTER_SPACE == 3 * DOT_DURATION && WORD_SPACE == 7 * DOT_DURATION
  {
  }

  /**
   * `flashMorse` emits one pulse per pattern character, in order: a high of
   * the symbol's duration followed by a symbol space; it echoes exactly the
   * pattern characters and ignores every other character.
   */
  lemma {:induction false} OnePulsePerSymbol(morse: string)
    ensures var s := Symbols(morse);
      && PatternEcho(morse) == s
      && |PatternTrace(morse)| == 2 * |s|
      && forall k :: 0 <= k < |s| ==>
           PatternTrace(morse)[2 * k] == High(Duration(s[k])) && PatternTrace(morse)[2 * k + 1] == Low(SYMBOL_SPACE)
    decreases |morse|
  {
    EchoIsSymbols(morse);
    if morse != [] {
      var init := morse[..|morse| - 1];
      var c := morse[|morse| - 1];
      OnePulsePerSymbol(init);
      var s0 := Symbols(init);
      var t0 := PatternTrace(init);
      var s := Symbols(morse);
      assert init + [c] == morse;
      SymbolsSnoc(init, c);
      assert s == s0 + (if c in ".-" then [c] else []);
      forall k | 0 <= k < |s|
        ensures PatternTrace(morse)[2 * k] == High(Duration(s[k])) && PatternTrace(morse)[2 * k + 1] == Low(SYMBOL_SPACE)
      {
        if k < |s0| {
          assert s[k] == s0[k];
          assert PatternTrace(morse)[2 * k] == t0[2 * k];
          assert PatternTrace(morse)[2 * k + 1] == t0[2 * k + 1];
        }
      }
    }
  }

  /** `flashMorse` prints exactly the dots and dashes of the pattern, in order. */
  lemma {:induction false} EchoIsSymbols(morse: string)
    ensures PatternEcho(morse) == Symbols(morse)
    decreases |morse|
  {
    if morse != [] {
      var init := morse[..|morse| - 1];
      EchoIsSymbols(init);
      assert init + [morse[|morse| - 1]] == morse;
      SymbolsSnoc(init, morse[|morse| - 1]);
    }
  }

  /** A string of pattern characters is its own symbol sequence. */
  lemma {:induction false} SymbolsOfPattern(morse: string)
    requires forall k :: 0 <= k < |morse| ==> morse[k] in ".-"
    ensures Symbols(morse) == morse
    decreases |morse|
  {
    if morse != [] {
      SymbolsOfPattern(morse[1..]);
      assert [morse[0]] + morse[1..] == morse;
    }
  }

  /** Every row of `morseTable` is a non-empty pattern of at most five dots and dashes. */
  lemma TableRowsArePatterns()
    ensures Shaped(MorseTable)
    ensures forall k :: 0 <= k < |MorseTable| ==> |MorseTable[k]| <= 5
  {
  }

  /** The pattern of a letter or digit: its table row, made of dots and dashes only. */
  lemma PatternOfAlnum(table: seq<string>, c: char)
    requires Shaped(table) && IsAlnum(c)
    ensures Pattern(table, c) == table[TableIndex(c)]
    ensures 0 < |Pattern(table, c)| && Symbols(Pattern(table, c)) == Pattern(table, c)
  {
    SymbolsOfPattern(Pattern(table, c));
  }

  /** The table row used for a character depends on it up to case only. */
  lemma TableIndexUpToCase(c: char, d: char)
    requires IsAlnum(c) && IsAlnum(d)
    ensures TableIndex(c) == TableIndex(d) <==> Upper(c) == Upper(d)
  {
  }

  /** Letters use rows 0..25, in alphabet order; digit d uses row 26 + d. */
  lemma TableIndexRanges(c: char)
    requires IsAlnum(c)
    ensures 'A' <= Upper(c) <= 'Z' ==> TableIndex(c) == Upper(c) as int - 'A' as int
    ensures '0' <= c <= '9' ==> TableIndex(c) == 26 + (c as int - '0' as int)
  {
  }

  /** A lower-case letter is sent exactly as its upper-case form. */
  lemma LowerSentAsUpper(table: seq<string>, c: char)
    ensures CharTrace(table, c) == CharTrace(table, Upper(c)) && CharEcho(table, c) == CharEcho(table, Upper(c))
  {
    if IsAlnum(c) {
      TableIndexUpToCase(c, Upper(c));
    }
  }

  /** A message is sent as its upper-case form. */
  lemma {:induction false} CaseInsensitive(table: seq<string>, message: string)
    ensures MessageTrace(table, message) == MessageTrace(table, UpperString(message))
    ensures MessageEcho(table, message) == MessageEcho(table, UpperString(message))
    decreases |message|
  {
    if message != [] {
      var init := message[..|message| - 1];
      var u := UpperString(message);
      CaseInsensitive(table, init);
      LowerSentAsUpper(table, message[|message| - 1]);
      assert u[..|u| - 1] == UpperString(init);
    }
  }

  /**
   * A space flashes nothing and only waits a word space; any other character
   * without a row flashes nothing and waits a letter space; a letter or digit
   * is the only character that turns the LED on.
   */
  lemma CharacterHandling(table: seq<string>, c: char)
    requires Shaped(table)
    ensures c == ' ' ==> CharTrace(table, c) == [Low(WORD_SPACE)] && CharEcho(table, c) == "/ "
    ensures c != ' ' && !IsAlnum(c) ==> CharTrace(table, c) == [Low(LETTER_SPACE)] && CharEcho(table, c) == " "
    ensures HasHigh(CharTrace(table, c)) <==> IsAlnum(c)
  {
    if IsAlnum(c) {
      PatternOfAlnum(table, c);
      OnePulsePerSymbol(Pattern(table, c));
      assert CharTrace(table, c)[0] == PatternTrace(Pattern(table, c))[2 * 0];
    } else if c != ' ' {
      assert CharTrace(table, c) == [Low(LETTER_SPACE)];
    }
  }

  /** A pattern's trace starts with the LED on and ends with a symbol space. */
  lemma PatternTraceEnds(morse: string)
    requires morse != [] && Symbols(morse) == morse
    ensures var t := PatternTrace(morse);
      |t| >= 2 && t[0].High? && t[|t| - 1] == Low(SYMBOL_SPACE)
  {
    OnePulsePerSymbol(morse);
    var k := |morse| - 1;
    assert PatternTrace(morse)[2 * k + 1] == Low(SYMBOL_SPACE);
    assert PatternTrace(morse)[2 * 0].High?;
  }

  /** The trace of a letter or digit: its pulses, ending in a symbol space and a letter space. */
  lemma AlnumTrace(table: seq<string>, c: char)
    requires Shaped(table) && IsAlnum(c)
    ensures var t := CharTrace(table, c);
      && |t| >= 3 && t[0].High?
      && t[|t| - 2] == Low(SYMBOL_SPACE) && t[|t| - 1] == Low(LETTER_SPACE)
  {
    var p := Pattern(table, c);
    PatternOfAlnum(table, c);
    PatternTraceEnds(p);
    var t := PatternTrace(p);
    assert CharTrace(table, c) == t + [Low(LETTER_SPACE)];
  }

  /**
   * Between the last pulse of one letter and the first pulse of the next the
   * LED stays off for a symbol space and a letter space: four dot units.
   */
  lemma LetterGap(table: seq<string>, message: string, a: char, b: char)
    requires Shaped(table) && IsAlnum(a) && IsAlnum(b)
    ensures var ta, tb := CharTrace(table, a), CharTrace(table, b);
      && MessageTrace(table, message + [a, b]) == MessageTrace(table, message) + ta + tb
      && ta[|ta| - 2] == Low(SYMBOL_SPACE) && ta[|ta| - 1] == Low(LETTER_SPACE) && tb[0].High?
      && ta[|ta| - 2].ms + ta[|ta| - 1].ms == 4 * DOT_DURATION
  {
    AlnumTrace(table, a);
    AlnumTrace(table, b);
    var m := message + [a, b];
    assert m[..|m| - 1] == message + [a];
    assert (message + [a])[..|message|] == message;
  }

  lemma AppendAssoc<T>(a: seq<T>, b: seq<T>, c: seq<T>)
    ensures (a + b) + c == a + (b + c)
  {
  }

  /** One more dot/dash character of a pattern adds its own trace and echo at the end. */
  lemma PatternSnoc(morse: string, i: nat)
    requires i < |morse|
    ensures PatternTrace(morse[..i + 1]) == PatternTrace(morse[..i]) + SymbolTrace(morse[i])
    ensures PatternEcho(morse[..i + 1]) == PatternEcho(morse[..i]) + SymbolEcho(morse[i])
  {
    assert morse[..i + 1][..i] == morse[..i];
  }

  /** One more character of the message adds its own trace and echo at the end. */
  lemma MessageSnoc(table: seq<string>, message: string, i: nat)
    requires i < |message|
    ensures MessageTrace(table, message[..i + 1]) == MessageTrace(table, message[..i]) + CharTrace(table, message[i])
    ensures MessageEcho(table, message[..i + 1]) == MessageEcho(table, message[..i]) + CharEcho(table, message[i])
  {
    assert message[..i + 1][..i] == message[..i];
  }

  lemma {:induction false} CopiesSnoc<T>(s: seq<T>, n: int)
    requires n >= 0
    ensures Copies(s, n + 1) == Copies(s, n) + s
    decreases n
  {
    if n > 0 {
      CopiesSnoc(s, n - 1);
    }
  }

  lemma {:induction false} CopiesLength<T>(s: seq<T>, n: int)
    ensures |Copies(s, n)| == (if n <= 0 then 0 else n * |s|)
    decreases n
  {
    if n > 0 {
      CopiesLength(s, n - 1);
    }
  }

  /**
   * `sendMorse` sends `times` copies of one repetition (the message and the
   * long pause), and nothing when `times` is zero or negative.
   */
  lemma {:induction false} SendRepeats(table: seq<string>, message: string, times: int)
    ensures SendTrace(table, message, times) == Copies(RepetitionTrace(table, message), times)
    ensures SendEcho(table, message, times) == Copies(RepetitionEcho(table, message), times)
    ensures |SendTrace(table, message, times)| == (if times <= 0 then 0 else times * |RepetitionTrace(table, message)|)
    decreases times
  {
    if times > 0 {
      SendRepeats(table, message, times - 1);
      CopiesSnoc(RepetitionTrace(table, message), times - 1);
      CopiesSnoc(RepetitionEcho(table, message), times - 1);
    }
    CopiesLength(RepetitionTrace(table, message), times);
  }

  // ---------------------------------------------------------------------
  // The sender as it runs: the LED trace and the printed echo grow step by step.

  class Transmitter {
    /** Everything the LED has done so far. */
    var trace: seq<Pulse>
    /** Everything printed so far. */
    var echo: string

    constructor ()
      ensures trace == [] && echo == []
    {
      trace, echo := [], [];
    }

    /** `flashDot`: on for a dot, off for a symbol space. */
    method FlashDot()
      modifies this
      ensures trace == old(trace) + [High(DOT_DURATION), Low(SYMBOL_SPACE)] && echo == old(echo)
    {
      trace := trace + [High(DOT_DURATION), Low(SYMBOL_SPACE)];
    }

    /** `flashDash`: on for a dash, off for a symbol space. */
    method FlashDash()
      modifies this
      ensures trace == old(trace) + [High(DASH_DURATION), Low(SYMBOL_SPACE)] && echo == old(echo)
    {
      trace := trace + [High(DASH_DURATION), Low(SYMBOL_SPACE)];
    }

    /** `flashMorse`: flashes and prints each dot and dash of `morse`. */
    method FlashMorse(morse: string)
      modifies this
      ensures trace == old(trace) + PatternTrace(morse)
      ensures echo == old(echo) + PatternEcho(morse)
    {
      for i := 0 to |morse|
        invariant trace == old(trace) + PatternTrace(morse[..i])
        invariant echo == old(echo) + PatternEcho(morse[..i])
      {
        PatternSnoc(morse, i);
        AppendAssoc(old(trace), PatternTrace(morse[..i]), SymbolTrace(morse[i]));
        AppendAssoc(old(echo), PatternEcho(morse[..i]), SymbolEcho(morse[i]));
        if morse[i] == '.' {
          FlashDot();
          echo := echo + ".";
        } else if morse[i] == '-' {
          FlashDash();
          echo := echo + "-";
        }
      }
      assert morse[..|morse|] == morse;
    }

    /** The body of the inner loop of `sendMorse` for one character, with the rows of `table`. */
    method SendChar(table: seq<string>, c: char)
      requires |table| == TABLE_SIZE
      modifies this
      ensures trace == old(trace) + CharTrace(table, c)
      ensures echo == old(echo) + CharEcho(table, c)
    {
      if c == ' ' {
        trace := trace + [Low(WORD_SPACE)];
        echo := echo + "/ ";
      } else {
        AppendAssoc(old(trace), PatternTrace(Pattern(table, c)), [Low(LETTER_SPACE)]);
        AppendAssoc(old(echo), PatternEcho(Pattern(table, c)), " ");
        if 'a' <= c <= 'z' {
          FlashMorse(table[c as int - 'a' as int]);
        } else if 'A' <= c <= 'Z' {
          FlashMorse(table[c as int - 'A' as int]);
        } else if '0' <= c <= '9' {
          FlashMorse(table[c as int - '0' as int + 26]);
        }
        trace := trace + [Low(LETTER_SPACE)];
        echo := echo + " ";
      }
    }

    /** The inner loop of `sendMorse`: one pass over the message. */
    method SendMessage(table: seq<string>, message: string)
      requires |table| == TABLE_SIZE
      modifies this
      ensures trace == old(trace) + MessageTrace(table, message)
      ensures echo == old(echo) + MessageEcho(table, message)
    {
      for i := 0 to |message|
        invariant trace == old(trace) + MessageTrace(table, message[..i])
        invariant echo == old(echo) + MessageEcho(table, message[..i])
      {
        MessageSnoc(table, message, i);
        AppendAssoc(old(trace), MessageTrace(table, message[..i]), CharTrace(table, message[i]));
        AppendAssoc(old(echo), MessageEcho(table, message[..i]), CharEcho(table, message[i]));
        SendChar(table, message[i]);
      }
      assert message[..|message|] == message;
    }

    /** The outer loop of `sendMorse`, with the rows of `table`. */
    method Send(table: seq<string>, message: string, times: int)
      requires |table| == TABLE_SIZE
      modifies this
      ensures trace == old(trace) + SendTrace(table, message, times)
      ensures echo == old(echo) + SendEcho(table, message, times)
    {
      var t := 0;
      while t < times
        invariant times <= 0 ==> t == 0
        invariant times > 0 ==> 0 <= t <= times
        invariant trace == old(trace) + SendTrace(table, message, t)
        invariant echo == old(echo) + SendEcho(table, message, t)
      {
        AppendAssoc(old(trace) + SendTrace(table, message, t), MessageTrace(table, message), [Low(REPEAT_PAUSE)]);
        AppendAssoc(old(echo) + SendEcho(table, message, t), MessageEcho(table, message), "\n");
        AppendAssoc(old(trace), SendTrace(table, message, t), RepetitionTrace(table, message));
        AppendAssoc(old(echo), SendEcho(table, message, t), RepetitionEcho(table, message));
        SendMessage(table, message);
        trace := trace + [Low(REPEAT_PAUSE)];
        echo := echo + "\n";
        t := t + 1;
      }
    }

    /** `sendMorse(message, times)`. */
    method SendMorse(message: string, times: int)
      modifies this
      ensures trace == old(trace) + SendTrace(MorseTable, message, times)
      ensures echo == old(echo) + SendEcho(MorseTable, message, times)
    {
      TableRowsArePatterns();
      Send(MorseTable, message, times);
    }
  }
}
