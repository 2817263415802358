/**
 * `morseToAsciiString` of lab5_2: splits a symbol string on ' ' and '/',
 * looks every group up in the alphabet, and writes the text.
 */
module MorseText {
  import opened MorseAlphabet

  /** The two characters that end a group. */
  predicate IsSeparator(c: char) {
    c == ' ' || c == '/'
  }

  /** Every character of `s` belongs to a group (none is a separator). */
  predicate NoSeparator(s: string) {
    forall k :: 0 <= k < |s| ==> !IsSeparator(s[k])
  }

  /**
   * The outcome of a conversion: the text, or the report that a group grew
   * past MAX_CHAR symbols, which in the source overruns `morseChar`.
   */
  datatype Decoded = Text(text: string) | GroupOverflow

  /** `x` followed by `y`; an overflow in either is an overflow of both. */
  function Concat(x: Decoded, y: Decoded): Decoded {
    if x.Text? && y.Text? then Text(x.text + y.text) else GroupOverflow
  }

  /** The character a finished group contributes: none for an empty group. */
  function Emit(table: seq<Entry>, group: string): string {
    if group == [] then [] else [Lookup(table, group)]
  }

  /**
   * The conversion loop, looking groups up in `table`, from the rest of the
   * input `code` on, with the pending group `group` and the text `out`
   * written so far.
   */
  function Scan(table: seq<Entry>, code: string, group: string, out: string): Decoded
    requires |group| <= MAX_CHAR
    decreases |code|
  {
    if code == [] then Text(out + Emit(table, group))
    else if code[0] == ' ' then Scan(table, code[1..], [], out + Emit(table, group))
    else if code[0] == '/' then Scan(table, code[1..], [], out + Emit(table, group) + " ")
    else if |group| == MAX_CHAR then GroupOverflow
    else Scan(table, code[1..], group + [code[0]], out)
  }

  /** The conversion of the symbol string `code` with the alphabet `table`. */
  function Decode(table: seq<Entry>, code: string): Decoded {
    Scan(table, code, [], [])
  }

  /** What `morseToAsciiString` computes for the symbol string `code`. */
  function MorseToText(code: string): Decoded {
    Decode(MorseMap, code)
  }

  /**
   * The loop of morseToAsciiString over the alphabet `table`. The pending
   * group lives in the fixed buffer `morseChar` of MAX_CHAR + 1 characters
   * (room for the terminating NUL); a seventh symbol in one group is
   * reported instead of written past it.
   */
  method Convert(table: seq<Entry>, morseCode: string) returns (result: Decoded)
    ensures result == Decode(table, morseCode)
  {
    var morseChar := new char[MAX_CHAR + 1];
    var morseCharIndex := 0;
    var asciiString: string := [];
    for i := 0 to |morseCode|
      invariant 0 <= morseCharIndex <= MAX_CHAR
      invariant Scan(table, morseCode[i..], morseChar[..morseCharIndex], asciiString) == Decode(table, morseCode)
    {
      ghost var group, out := morseChar[..morseCharIndex], asciiString;
      assert morseCode[i..][1..] == morseCode[i + 1..];
      if morseCode[i] == ' ' {
        if morseCharIndex > 0 {
          morseChar[morseCharIndex] := '\0';
          var c := Search(table, morseChar[..morseCharIndex]);
          asciiString := asciiString + [c];
          morseCharIndex := 0;
        }
        assert asciiString == out + Emit(table, group);
      } else if morseCode[i] == '/' {
        if morseCharIndex > 0 {
          morseChar[morseCharIndex] := '\0';
          var c := Search(table, morseChar[..morseCharIndex]);
          asciiString := asciiString + [c];
          morseCharIndex := 0;
        }
        asciiString := asciiString + [' '];
        assert asciiString == out + Emit(table, group) + " ";
      } else {
        if morseCharIndex == MAX_CHAR {
          return GroupOverflow;
        }
        morseChar[morseCharIndex] := morseCode[i];
        morseCharIndex := morseCharIndex + 1;
        assert morseChar[..morseCharIndex] == group + [morseCode[i]];
      }
    }
    if morseCharIndex > 0 {
      morseChar[morseCharIndex] := '\0';
      var c := Search(table, morseChar[..morseCharIndex]);
      asciiString := asciiString + [c];
    }
    return Text(asciiString);
  }

  /** morseToAsciiString: the conversion with `morseMap`. */
  method MorseToAsciiString(morseCode: string) returns (result: Decoded)
    ensures result == MorseToText(morseCode)
  {
    result := Convert(MorseMap, morseCode);
  }

  // ---------------------------------------------------------------------
  // Composition: how the text of a symbol string is built from its pieces.

  /** The text written so far is a prefix of the final text and does not influence the rest. */
  lemma {:induction false} ScanShift(table: seq<Entry>, code: string, group: string, out: string)
    requires |group| <= MAX_CHAR
    ensures Scan(table, code, group, out) == Concat(Text(out), Scan(table, code, group, []))
    decreases |code|
  {
    if code == [] {
    } else if code[0] == ' ' {
      var e := Emit(table, group);
      ScanShift(table, code[1..], [], out + e);
      ScanShift(table, code[1..], [], e);
      assert [] + e == e;
      ConcatAssoc(out, e, Scan(table, code[1..], [], []));
    } else if code[0] == '/' {
      var e := Emit(table, group) + " ";
      ScanShift(table, code[1..], [], out + e);
      ScanShift(table, code[1..], [], e);
      assert [] + Emit(table, group) + " " == e;
      assert out + Emit(table, group) + " " == out + e;
      ConcatAssoc(out, e, Scan(table, code[1..], [], []));
    } else if |group| < MAX_CHAR {
      ScanShift(table, code[1..], group + [code[0]], out);
    }
  }

  lemma ConcatAssoc(a: string, b: string, x: Decoded)
    ensures Concat(Text(a), Concat(Text(b), x)) == Concat(Text(a + b), x)
  {
    if x.Text? {
      assert (a + b) + x.text == a + (b + x.text);
    }
  }

  /** Symbols read into the pending group: they only extend it, until it would pass MAX_CHAR. */
  lemma {:induction false} ScanGroup(table: seq<Entry>, u: string, rest: string, group: string, out: string)
    requires NoSeparator(u)
    requires |group| + |u| <= MAX_CHAR
    ensures Scan(table, u + rest, group, out) == Scan(table, rest, group + u, out)
    decreases |u|
  {
    if u == [] {
      assert u + rest == rest && group + u == group;
    } else {
      assert (u + rest)[0] == u[0];
      assert (u + rest)[1..] == u[1..] + rest;
      assert group + u == (group + [u[0]]) + u[1..];
      ScanGroup(table, u[1..], rest, group + [u[0]], out);
    }
  }

  /** A group of more than MAX_CHAR symbols overflows, whatever follows it. */
  lemma {:induction false} ScanLongGroup(table: seq<Entry>, u: string, rest: string, group: string, out: string)
    requires NoSeparator(u)
    requires |group| <= MAX_CHAR < |group| + |u|
    ensures Scan(table, u + rest, group, out) == GroupOverflow
    decreases |u|
  {
    assert (u + rest)[0] == u[0];
    if |group| < MAX_CHAR {
      assert (u + rest)[1..] == u[1..] + rest;
      ScanLongGroup(table, u[1..], rest, group + [u[0]], out);
    }
  }

  /**
   * Decoding splits at a separator: when `a` is empty or ends with ' ' or
   * '/', the text of `a + b` is the text of `a` followed by the text of `b`.
   */
  lemma {:induction false} DecodeSplit(table: seq<Entry>, a: string, b: string)
    requires a == [] || IsSeparator(a[|a| - 1])
    ensures Decode(table, a + b) == Concat(Decode(table, a), Decode(table, b))
  {
    assert a == [] ==> a + b == b;
    if a != [] {
      ScanSplit(table, a, b, [], []);
      var d := Scan(table, a, [], []);
      if d.Text? {
        ScanShift(table, b, [], d.text);
      }
    }
  }

  lemma {:induction false} ScanSplit(table: seq<Entry>, a: string, b: string, group: string, out: string)
    requires a != [] && IsSeparator(a[|a| - 1])
    requires |group| <= MAX_CHAR
    ensures Scan(table, a + b, group, out) ==
            (var d := Scan(table, a, group, out); if d.Text? then Scan(table, b, [], d.text) else GroupOverflow)
    decreases |a|
  {
    assert (a + b)[0] == a[0];
    assert (a + b)[1..] == a[1..] + b;
    if |a| == 1 {
      assert a[1..] == [] && a[1..] + b == b;
      var o := if a[0] == ' ' then out + Emit(table, group) else out + Emit(table, group) + " ";
      assert Scan(table, a, group, out) == Scan(table, [], [], o);
      assert o + Emit(table, []) == o;
    } else if a[0] == ' ' {
      ScanSplit(table, a[1..], b, [], out + Emit(table, group));
    } else if a[0] == '/' {
      ScanSplit(table, a[1..], b, [], out + Emit(table, group) + " ");
    } else if |group| < MAX_CHAR {
      ScanSplit(table, a[1..], b, group + [a[0]], out);
    }
  }

  /**
   * A group followed by ' ' yields exactly its character, and one followed
   * by '/' yields its character and a space; a group longer than MAX_CHAR
   * is reported.
   */
  lemma {:induction false} DecodeGroupThenSeparator(table: seq<Entry>, g: string, sep: char)
    requires g != [] && NoSeparator(g) && IsSeparator(sep)
    ensures |g| <= MAX_CHAR ==>
              Decode(table, g + [sep]) == Text(if sep == ' ' then [Lookup(table, g)] else [Lookup(table, g), ' '])
    ensures |g| > MAX_CHAR ==> Decode(table, g + [sep]) == GroupOverflow
  {
    if |g| <= MAX_CHAR {
      ScanGroup(table, g, [sep], [], []);
      assert [] + g == g;
    } else {
      ScanLongGroup(table, g, [sep], [], []);
    }
  }

  /** A final group with no separator after it is still converted. */
  lemma {:induction false} DecodeFinalGroup(table: seq<Entry>, g: string)
    requires g != [] && NoSeparator(g)
    ensures |g| <= MAX_CHAR ==> Decode(table, g) == Text([Lookup(table, g)])
    ensures |g| > MAX_CHAR ==> Decode(table, g) == GroupOverflow
  {
    assert g + [] == g;
    if |g| <= MAX_CHAR {
      ScanGroup(table, g, [], [], []);
      assert [] + g == g;
    } else {
      ScanLongGroup(table, g, [], [], []);
    }
  }

  /** A lone ' ' yields nothing and a lone '/' yields one space. */
  lemma LoneSeparators(table: seq<Entry>)
    ensures Decode(table, " ") == Text([])
    ensures Decode(table, "/") == Text(" ")
  {
  }

  // ---------------------------------------------------------------------
  // Counting: the text has one character per group and one per '/'.

  /** A group starts at position i: a non-separator that is first or follows a separator. */
  predicate StartsGroup(code: string, i: nat)
    requires i < |code|
  {
    !IsSeparator(code[i]) && (i == 0 || IsSeparator(code[i - 1]))
  }

  /** The number of groups that start at or after position i. */
  function GroupsFrom(code: string, i: nat): nat
    requires i <= |code|
    decreases |code| - i
  {
    if i == |code| then 0 else (if StartsGroup(code, i) then 1 else 0) + GroupsFrom(code, i + 1)
  }

  /** The number of maximal non-empty groups of `code`. */
  function GroupCount(code: string): nat {
    GroupsFrom(code, 0)
  }

  lemma {:induction false} ScanLength(table: seq<Entry>, code: string, i: nat, group: string, out: string, t: string)
    requires i <= |code| && |group| <= MAX_CHAR
    requires (group == []) == (i == 0 || IsSeparator(code[i - 1]))
    requires Scan(table, code[i..], group, out) == Text(t)
    ensures |t| == |out| + (if group != [] then 1 else 0) + GroupsFrom(code, i) + multiset(code[i..])['/']
    decreases |code| - i
  {
    if i < |code| {
      var rest := code[i..];
      assert rest == [code[i]] + code[i + 1..];
      assert rest[1..] == code[i + 1..];
      if code[i] == ' ' {
        ScanLength(table, code, i + 1, [], out + Emit(table, group), t);
      } else if code[i] == '/' {
        ScanLength(table, code, i + 1, [], out + Emit(table, group) + " ", t);
      } else {
        ScanLength(table, code, i + 1, group + [code[i]], out, t);
      }
    }
  }

  /** The length of the text is the number of groups plus the number of '/'. */
  lemma DecodeLength(table: seq<Entry>, code: string)
    requires Decode(table, code).Text?
    ensures |Decode(table, code).text| == GroupCount(code) + multiset(code)['/']
  {
    assert code[0..] == code;
    ScanLength(table, code, 0, [], [], Decode(table, code).text);
  }

  // ---------------------------------------------------------------------
  // Overflow: exactly the inputs with a group longer than MAX_CHAR overflow.

  /** Every stretch of `code` without a separator has at most MAX_CHAR characters. */
  ghost predicate GroupsFit(code: string) {
    forall i, j :: 0 <= i <= j <= |code| && NoSeparator(code[i..j]) ==> j - i <= MAX_CHAR
  }

  lemma FitsAcrossSeparator(p: string, c: char, r: string)
    requires NoSeparator(p) && |p| <= MAX_CHAR && IsSeparator(c)
    ensures GroupsFit(p + [c] + r) <==> GroupsFit(r)
  {
    var w := p + [c] + r;
    var m := |p|;
    if GroupsFit(r) {
      forall i, j | 0 <= i <= j <= |w|
        ensures NoSeparator(w[i..j]) ==> j - i <= MAX_CHAR
      {
        if i > m {
          assert w[i..j] == r[i - m - 1..j - m - 1];
        } else if j > m {
          assert w[i..j][m - i] == c;
        }
      }
    }
    if GroupsFit(w) {
      forall i, j | 0 <= i <= j <= |r| && NoSeparator(r[i..j])
        ensures j - i <= MAX_CHAR
      {
        assert w[i + m + 1..j + m + 1] == r[i..j];
      }
    }
  }

  lemma {:induction false} ScanOverflow(table: seq<Entry>, code: string, group: string, out: string)
    requires NoSeparator(group) && |group| <= MAX_CHAR
    ensures Scan(table, code, group, out).GroupOverflow? <==> !GroupsFit(group + code)
    decreases |code|
  {
    if code == [] {
      assert group + code == group;
    } else if IsSeparator(code[0]) {
      assert group + code == group + [code[0]] + code[1..];
      FitsAcrossSeparator(group, code[0], code[1..]);
      ScanOverflow(table, code[1..], [], if code[0] == ' ' then out + Emit(table, group) else out + Emit(table, group) + " ");
      assert [] + code[1..] == code[1..];
    } else if |group| == MAX_CHAR {
      var w := group + code;
      assert w[0..MAX_CHAR + 1] == group + [code[0]];
    } else {
      assert group + code == (group + [code[0]]) + code[1..];
      ScanOverflow(table, code[1..], group + [code[0]], out);
    }
  }

  /** The conversion overflows if and only if some group is longer than MAX_CHAR. */
  lemma DecodeOverflowIff(table: seq<Entry>, code: string)
    ensures Decode(table, code) == GroupOverflow <==> !GroupsFit(code)
  {
    ScanOverflow(table, code, [], []);
    assert [] + code == code;
  }
}
