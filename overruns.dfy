/**
 * Three buffers of lab5_2 that the code as written can overrun, each shown
 * with a sequence of readings that drives the receiver there from its
 * initial state:
 *
 *  - `message[200]`: the classifier appends marks without checking the
 *    length, and the flush writes the NUL at `message[msg_len]`;
 *  - `asciiString[100]`: 199 marks can convert to 100 characters, whose
 *    NUL is the 101st byte;
 *  - `morseChar[MAX_CHAR + 1]`: a group of seven symbols puts its NUL one
 *    past the end.
 *
 * The receiver and the converter of the other modules are the corrected
 * versions (a dropped mark is reported, an overlong text or group is
 * reported); the as-written versions here agree with them whenever nothing
 * overflows.
 */
module MorseOverruns {
  import opened MorseAlphabet
  import opened MorseText
  import opened MorseReceiver

  // ---------------------------------------------------------------------
  // Readings and the symbols they produce.

  /** `n` readings at the threshold (the LED on). */
  function Highs(n: nat): seq<int> {
    seq(n, _ => THRESHOLD)
  }

  /** `n` readings of 0 mV (the LED off). */
  function Lows(n: nat): seq<int> {
    seq(n, _ => 0)
  }

  /** `n` dots: for each, five high readings followed by `gap` low ones. */
  function DotTrain(n: nat, gap: nat): seq<int> {
    if n == 0 then [] else DotTrain(n - 1, gap) + (Highs(5) + Lows(gap))
  }

  /** `n` dots with `sep` between each two. */
  function Dots(n: nat, sep: string): string
    requires n >= 1
  {
    if n == 1 then "." else Dots(n - 1, sep) + sep + "."
  }

  function Es(n: nat): string {
    seq(n, _ => 'E')
  }

  // ---------------------------------------------------------------------
  // Runs of the receiver over such readings.

  /** No tick of `ts` dropped marks. */
  predicate Accepted(ts: seq<Tick>) {
    forall k :: 0 <= k < |ts| ==> !ts[k].Rejected?
  }

  lemma AcceptedConcat(a: seq<Tick>, b: seq<Tick>)
    requires Accepted(a) && Accepted(b)
    ensures Accepted(a + b)
  {
    forall k | 0 <= k < |a + b|
      ensures !(a + b)[k].Rejected?
    {
      if k >= |a| {
        assert (a + b)[k] == b[k - |a|];
      }
    }
  }

  /** A run over `a + b` is the run over `a` followed by the run over `b`. */
  lemma {:induction false} RunSplit(s: Snapshot, calibrated: bool, a: seq<int>, b: seq<int>)
    ensures var (s1, t1) := Run(s, calibrated, a);
      var (s2, t2) := Run(s1, calibrated, b);
      Run(s, calibrated, a + b) == (s2, t1 + t2)
    decreases |a|
  {
    if a != [] {
      var ab := a + b;
      assert ab[0] == a[0] && ab[1..] == a[1..] + b;
      var first := Next(s, calibrated, a[0]);
      RunSplit(first.0, calibrated, a[1..], b);
      var ra := Run(first.0, calibrated, a[1..]);
      var rb := Run(ra.0, calibrated, b);
      assert Run(s, calibrated, a) == (ra.0, [first.1] + ra.1);
      assert Run(s, calibrated, ab) == (rb.0, [first.1] + (ra.1 + rb.1));
      assert [first.1] + (ra.1 + rb.1) == ([first.1] + ra.1) + rb.1;
    } else {
      assert a + b == b;
      assert [] + Run(s, calibrated, b).1 == Run(s, calibrated, b).1;
    }
  }

  /** High readings after a low run: the gap marks of that run, then the high run grows. */
  lemma {:induction false} HighsFrom(lowCount: nat, d: string, n: nat)
    requires n >= 1 && lowCount <= FLUSH_LOW && |d| + |GapMarks(lowCount)| < MESSAGE_SIZE
    ensures Run(Snapshot(0, lowCount, d), true, Highs(n)).0 == Snapshot(n, 0, d + GapMarks(lowCount))
    ensures Accepted(Run(Snapshot(0, lowCount, d), true, Highs(n)).1)
    decreases n
  {
    var s := Snapshot(0, lowCount, d);
    var d' := d + GapMarks(lowCount);
    var s1 := Snapshot(1, 0, d');
    assert Highs(n)[0] == THRESHOLD && Highs(n)[1..] == Highs(n - 1);
    assert Next(s, true, THRESHOLD) == (s1, Quiet);
    HighsAfter(1, d', n - 1);
    var rest := Run(s1, true, Highs(n - 1));
    assert Run(s, true, Highs(n)) == (rest.0, [Quiet] + rest.1);
    AcceptedConcat([Quiet], rest.1);
  }

  lemma {:induction false} HighsAfter(h: nat, d: string, n: nat)
    requires |d| < MESSAGE_SIZE
    ensures Run(Snapshot(h, 0, d), true, Highs(n)).0 == Snapshot(h + n, 0, d)
    ensures Accepted(Run(Snapshot(h, 0, d), true, Highs(n)).1)
    decreases n
  {
    var s := Snapshot(h, 0, d);
    if n > 0 {
      var s1 := Snapshot(h + 1, 0, d);
      assert Highs(n)[0] == THRESHOLD && Highs(n)[1..] == Highs(n - 1);
      assert d + GapMarks(0) == d;
      assert Next(s, true, THRESHOLD) == (s1, Quiet);
      HighsAfter(h + 1, d, n - 1);
      var rest := Run(s1, true, Highs(n - 1));
      assert Run(s, true, Highs(n)) == (rest.0, [Quiet] + rest.1);
      AcceptedConcat([Quiet], rest.1);
    } else {
      assert Highs(n) == [];
      assert Run(s, true, Highs(n)) == (s, []);
    }
  }

  /** Low readings with no pulse pending and no flush in reach: only the low run grows. */
  lemma {:induction false} LowsAfter(l: nat, d: string, n: nat)
    requires l + n <= FLUSH_LOW && |d| < MESSAGE_SIZE
    ensures Run(Snapshot(0, l, d), true, Lows(n)) == (Snapshot(0, l + n, d), seq(n, _ => Quiet))
    decreases n
  {
    if n > 0 {
      assert Lows(n)[1..] == Lows(n - 1);
      assert d + PulseMarks(0) == d;
      LowsAfter(l + 1, d, n - 1);
      assert [Quiet] + seq(n - 1, _ => Quiet) == seq(n, _ => Quiet);
    } else {
      assert seq(0, _ => Quiet) == [];
    }
  }

  /** The low readings that complete a silence of FLUSH_LOW + 1 ticks: the last one flushes. */
  lemma {:induction false} FinalSilence(l: nat, d: string)
    requires 1 <= l <= FLUSH_LOW && d != [] && |d| < MESSAGE_SIZE
    ensures var (s', ts) := Run(Snapshot(0, l, d), true, Lows(FLUSH_LOW + 1 - l));
      s' == Initial && ts != [] && ts[|ts| - 1] == Report(d) && Accepted(ts)
    decreases FLUSH_LOW - l
  {
    var n := FLUSH_LOW + 1 - l;
    var s := Snapshot(0, l, d);
    assert Lows(n)[0] == 0 && Lows(n)[1..] == Lows(n - 1);
    assert d + PulseMarks(0) == d;
    if l < FLUSH_LOW {
      var s1 := Snapshot(0, l + 1, d);
      assert Next(s, true, 0) == (s1, Quiet);
      FinalSilence(l + 1, d);
      var rest := Run(s1, true, Lows(n - 1));
      assert Run(s, true, Lows(n)) == (rest.0, [Quiet] + rest.1);
      AcceptedConcat([Quiet], rest.1);
    } else {
      assert Next(s, true, 0) == (Initial, Report(d));
      assert Lows(n)[1..] == [] && Run(Initial, true, []) == (Initial, []);
      assert [Report(d)] + [] == [Report(d)];
      assert Run(s, true, Lows(n)) == (Initial, [Report(d)]);
    }
  }

  /** One dot pulse after a low run of `lowCount` ticks, then `gap` low ticks. */
  lemma DotRound(lowCount: nat, d: string, gap: nat)
    requires 1 <= gap <= FLUSH_LOW && lowCount <= FLUSH_LOW
    requires |d| + |GapMarks(lowCount)| + 1 < MESSAGE_SIZE
    ensures Run(Snapshot(0, lowCount, d), true, Highs(5) + Lows(gap)).0 == Snapshot(0, gap, d + GapMarks(lowCount) + ".")
    ensures Accepted(Run(Snapshot(0, lowCount, d), true, Highs(5) + Lows(gap)).1)
  {
    var d' := d + GapMarks(lowCount);
    var pulse := Snapshot(5, 0, d');
    RunSplit(Snapshot(0, lowCount, d), true, Highs(5), Lows(gap));
    HighsFrom(lowCount, d, 5);
    assert Lows(gap)[0] == 0 && Lows(gap)[1..] == Lows(gap - 1);
    WindowsDisjoint(5);
    assert Next(pulse, true, 0) == (Snapshot(0, 1, d' + "."), Quiet);
    LowsAfter(1, d' + ".", gap - 1);
    var quiet := seq(gap - 1, _ => Quiet);
    assert Run(pulse, true, Lows(gap)) == (Snapshot(0, gap, d' + "."), [Quiet] + quiet);
    AcceptedConcat([Quiet], quiet);
    AcceptedConcat(Run(Snapshot(0, lowCount, d), true, Highs(5)).1, [Quiet] + quiet);
  }

  lemma {:induction false} DotsLength(n: nat, sep: string)
    requires n >= 1
    ensures |Dots(n, sep)| == n + (n - 1) * |sep|
    decreases n
  {
    if n > 1 {
      DotsLength(n - 1, sep);
    }
  }

  /** A train of `n` dots drives the receiver from its initial state to holding `n` dots. */
  lemma {:induction false} TrainReaches(n: nat, gap: nat)
    requires n >= 1 && 1 <= gap <= FLUSH_LOW && |Dots(n, GapMarks(gap))| < MESSAGE_SIZE
    ensures Run(Initial, true, DotTrain(n, gap)).0 == Snapshot(0, gap, Dots(n, GapMarks(gap)))
    ensures Accepted(Run(Initial, true, DotTrain(n, gap)).1)
    decreases n
  {
    RunSplit(Initial, true, DotTrain(n - 1, gap), Highs(5) + Lows(gap));
    if n == 1 {
      assert DotTrain(0, gap) == [];
      DotRound(0, [], gap);
      assert [] + GapMarks(0) + "." == ".";
      AcceptedConcat([], Run(Initial, true, Highs(5) + Lows(gap)).1);
    } else {
      DotsLength(n, GapMarks(gap));
      DotsLength(n - 1, GapMarks(gap));
      TrainReaches(n - 1, gap);
      var s1 := Run(Initial, true, DotTrain(n - 1, gap)).0;
      DotRound(gap, Dots(n - 1, GapMarks(gap)), gap);
      AcceptedConcat(Run(Initial, true, DotTrain(n - 1, gap)).1, Run(s1, true, Highs(5) + Lows(gap)).1);
    }
  }

  // ---------------------------------------------------------------------
  // The loop as written.

  /**
   * The classification of the source as written: the counters move on as in
   * the corrected one, but the marks are appended whatever the length, so
   * nothing is ever dropped.
   */
  function ClassifyAsWritten(s: Snapshot, voltage: int): (r: Snapshot)
    ensures s.symbols <= r.symbols && |r.symbols| <= |s.symbols| + 3
    ensures voltage >= THRESHOLD ==> r.highCount == s.highCount + 1 && r.lowCount == 0
    ensures voltage < THRESHOLD ==> r.highCount == 0 && r.lowCount == s.lowCount + 1
  {
    WindowsDisjoint(s.lowCount);
    WindowsDisjoint(s.highCount);
    var high := voltage >= THRESHOLD;
    Snapshot(if high then s.highCount + 1 else 0, if high then 0 else s.lowCount + 1,
             s.symbols + if high then GapMarks(s.lowCount) else PulseMarks(s.highCount))
  }

  /**
   * One calibrated tick as written: the classification as written, then the
   * flush of a buffer that has passed FLUSH_LOW low ticks, converted and
   * written as written. It never drops marks and never reports a failure.
   */
  function NextAsWritten(s: Snapshot, voltage: int): (r: (Snapshot, Tick))
    ensures r.1 == Quiet || r.1.Flushed?
    ensures var c := ClassifyAsWritten(s, voltage);
      (r.1.Flushed? <==> c.lowCount > FLUSH_LOW && c.symbols != [])
    ensures r.1.Flushed? ==> r.0.symbols == [] && r.0.lowCount == 0 && r.1.symbols == ClassifyAsWritten(s, voltage).symbols
    ensures r.1 == Quiet ==> r.0 == ClassifyAsWritten(s, voltage)
  {
    var c := ClassifyAsWritten(s, voltage);
    if c.lowCount > FLUSH_LOW && |c.symbols| > 0 then (Snapshot(c.highCount, 0, []), ReportAsWritten(c.symbols))
    else (c, Quiet)
  }

  /** The loop as written over a finite sequence of calibrated readings. */
  function RunAsWritten(s: Snapshot, voltages: seq<int>): (r: (Snapshot, seq<Tick>))
    ensures |r.1| == |voltages|
    decreases |voltages|
  {
    if voltages == [] then (s, [])
    else
      var (s1, t1) := NextAsWritten(s, voltages[0]);
      var (s2, ts) := RunAsWritten(s1, voltages[1..]);
      (s2, [t1] + ts)
  }

  /** What the source as written reports where the corrected receiver reports `t`. */
  function AsWrittenTick(t: Tick): Tick {
    if IsFlush(t) then ReportAsWritten(t.symbols) else Quiet
  }

  /** A tick that drops nothing has the same new state as written, and the as-written report. */
  lemma TickAgreesWhileAccepted(s: Snapshot, voltage: int)
    requires Consistent(s) && !Next(s, true, voltage).1.Rejected?
    ensures NextAsWritten(s, voltage) == (Next(s, true, voltage).0, AsWrittenTick(Next(s, true, voltage).1))
  {
    if voltage < THRESHOLD && s.lowCount + 1 > FLUSH_LOW {
      assert PulseMarks(s.highCount) == "";
      assert s.symbols + "" == s.symbols;
    }
  }

  /**
   * Until the corrected receiver drops a mark, the loop as written goes
   * through the same states, and reports the as-written flush wherever the
   * corrected receiver flushes.
   */
  lemma {:induction false} RunAgreesWhileAccepted(s: Snapshot, voltages: seq<int>)
    requires Consistent(s) && Accepted(Run(s, true, voltages).1)
    ensures RunAsWritten(s, voltages).0 == Run(s, true, voltages).0
    ensures var ts := Run(s, true, voltages).1;
      |ts| == |voltages| && forall k :: 0 <= k < |ts| ==> RunAsWritten(s, voltages).1[k] == AsWrittenTick(ts[k])
    decreases |voltages|
  {
    if voltages != [] {
      var (s1, t1) := Next(s, true, voltages[0]);
      var ts := Run(s1, true, voltages[1..]).1;
      assert Run(s, true, voltages).1 == [t1] + ts;
      assert !Run(s, true, voltages).1[0].Rejected?;
      forall k | 0 <= k < |ts|
        ensures !ts[k].Rejected?
      {
        assert ts[k] == Run(s, true, voltages).1[k + 1];
      }
      TickAgreesWhileAccepted(s, voltages[0]);
      TickKeepsConsistent(s, true, voltages[0]);
      RunAgreesWhileAccepted(s1, voltages[1..]);
    }
  }

  // ---------------------------------------------------------------------
  // `message[200]`.

  /** While the marks fit with the NUL, the source as written and the corrected classification agree. */
  lemma ClassifyAgreesWhileFitting(s: Snapshot, voltage: int)
    requires |s.symbols| + |if voltage >= THRESHOLD then GapMarks(s.lowCount) else PulseMarks(s.highCount)| < MESSAGE_SIZE
    ensures ClassifyAsWritten(s, voltage) == Classify(s, voltage).0 && Classify(s, voltage).1 == Quiet
  {
  }

  /**
   * 199 dots sent without letter gaps fill `message` up to its last cell;
   * the next dot, as written, makes `msg_len` 200, so the NUL of the next
   * flush lands at `message[200]`. The corrected receiver drops that dot.
   */
  lemma MessageOverrun()
    ensures var s := RunAsWritten(Initial, DotTrain(199, 1) + Highs(5)).0;
      && s == Snapshot(5, 0, Dots(199, ""))
      && |NextAsWritten(s, 0).0.symbols| == MESSAGE_SIZE
      && Next(s, true, 0) == (Snapshot(0, 1, s.symbols), Rejected("."))
  {
    var d := Dots(199, "");
    var vs := DotTrain(199, 1) + Highs(5);
    DotsLength(199, "");
    assert GapMarks(1) == "";
    TrainReaches(199, 1);
    RunSplit(Initial, true, DotTrain(199, 1), Highs(5));
    HighsFrom(1, d, 5);
    AcceptedConcat(Run(Initial, true, DotTrain(199, 1)).1, Run(Snapshot(0, 1, d), true, Highs(5)).1);
    RunAgreesWhileAccepted(Initial, vs);
    assert d + "" == d;
    WindowsDisjoint(5);
  }

  // ---------------------------------------------------------------------
  // `asciiString[100]`.

  /**
   * The flush as written: the buffer is converted by the conversion loop as
   * written, and the text is written whatever its length. Where the
   * corrected conversion gives a text, the text is the same.
   */
  function ReportAsWritten(symbols: string): (r: Tick)
    ensures r.Flushed? && r.symbols == symbols
    ensures MorseToText(symbols).Text? ==> r.text == MorseToText(symbols).text
  {
    ScanAgreesWhileFitting(MorseMap, symbols, [], []);
    Flushed(symbols, ScanAsWritten(MorseMap, symbols, [], []))
  }

  /** While the text fits `asciiString` with its NUL, the flush as written and the corrected one agree. */
  lemma ReportAgreesWhileFitting(symbols: string)
    requires MorseToText(symbols).Text? && |MorseToText(symbols).text| < TEXT_SIZE
    ensures ReportAsWritten(symbols) == Report(symbols)
  {
  }

  lemma DotIsE()
    ensures Lookup(MorseMap, ".") == 'E'
  {
    AsciiOfAlnumPattern('E');
    assert MorseMap[4].morse == ".";
  }

  lemma {:induction false} DotsFront(n: nat, sep: string)
    requires n >= 2
    ensures Dots(n, sep) == "." + sep + Dots(n - 1, sep)
    decreases n
  {
    if n > 2 {
      DotsFront(n - 1, sep);
      assert Dots(n, sep) == ("." + sep + Dots(n - 2, sep)) + sep + ".";
    }
  }

  /** Dots separated by letter gaps convert, in a table where a dot is 'E', to as many 'E's. */
  lemma {:induction false} SpacedDotsConvert(table: seq<Entry>, n: nat)
    requires n >= 1 && Lookup(table, ".") == 'E'
    ensures Decode(table, Dots(n, " ")) == Text(Es(n))
    decreases n
  {
    if n == 1 {
      DecodeFinalGroup(table, ".");
      assert Es(1) == "E";
    } else {
      DotsFront(n, " ");
      assert Dots(n, " ") == ". " + Dots(n - 1, " ");
      DecodeSplit(table, ". ", Dots(n - 1, " "));
      DecodeGroupThenSeparator(table, ".", ' ');
      assert "." + [' '] == ". ";
      SpacedDotsConvert(table, n - 1);
      assert Es(n) == "E" + Es(n - 1);
    }
  }

  /**
   * 100 dots with letter gaps between them are 199 marks, which fit
   * `message`, and convert to 100 'E's: with the NUL, 101 bytes for the
   * 100 of `asciiString`. The loop as written flushes that text; the
   * corrected flush reports it as too long.
   */
  lemma TextOverrun()
    ensures var s := RunAsWritten(Initial, DotTrain(100, 20)).0;
      s == Snapshot(0, 20, Dots(100, " ")) && |s.symbols| == MESSAGE_SIZE - 1
    ensures var ts := RunAsWritten(Initial, DotTrain(100, 20) + Lows(FLUSH_LOW + 1 - 20)).1;
      ts != [] && ts[|ts| - 1] == Flushed(Dots(100, " "), Es(100)) && |Es(100)| + 1 > TEXT_SIZE
    ensures var ts := Run(Initial, true, DotTrain(100, 20) + Lows(FLUSH_LOW + 1 - 20)).1;
      ts != [] && ts[|ts| - 1] == FlushFailed(Dots(100, " "), TextTooLong)
  {
    var d := Dots(100, " ");
    DotsLength(100, " ");
    assert GapMarks(20) == " ";
    TrainReaches(100, 20);
    RunAgreesWhileAccepted(Initial, DotTrain(100, 20));
    SpacedDotsReports();
    FlushAfterTrain(DotTrain(100, 20), d, 20);
  }

  /** The 199 marks of 100 spaced dots: the corrected flush fails, the flush as written writes 100 'E's. */
  lemma SpacedDotsReports()
    ensures var d := Dots(100, " ");
      Report(d) == FlushFailed(d, TextTooLong) && ReportAsWritten(d) == Flushed(d, Es(100))
  {
    DotIsE();
    SpacedDotsConvert(MorseMap, 100);
  }

  /**
   * A train that leaves `d` buffered after `l` low ticks, then the rest of
   * the silence: both loops end in the flush of `d`, as written and corrected.
   */
  lemma FlushAfterTrain(train: seq<int>, d: string, l: nat)
    requires 1 <= l <= FLUSH_LOW && d != [] && |d| < MESSAGE_SIZE
    requires Run(Initial, true, train).0 == Snapshot(0, l, d) && Accepted(Run(Initial, true, train).1)
    ensures var ts := Run(Initial, true, train + Lows(FLUSH_LOW + 1 - l)).1;
      ts != [] && ts[|ts| - 1] == Report(d)
    ensures var ts := RunAsWritten(Initial, train + Lows(FLUSH_LOW + 1 - l)).1;
      ts != [] && ts[|ts| - 1] == ReportAsWritten(d)
  {
    var silence := Lows(FLUSH_LOW + 1 - l);
    FinalSilence(l, d);
    RunSplit(Initial, true, train, silence);
    var t1, t2 := Run(Initial, true, train).1, Run(Snapshot(0, l, d), true, silence).1;
    AcceptedConcat(t1, t2);
    RunAgreesWhileAccepted(Initial, train + silence);
    assert (t1 + t2)[|t1 + t2| - 1] == t2[|t2| - 1];
  }

  // ---------------------------------------------------------------------
  // `morseChar[MAX_CHAR + 1]`.

  /** The conversion loop as written: a group grows without bound. */
  function ScanAsWritten(table: seq<Entry>, code: string, group: string, out: string): (r: string)
    ensures out <= r
    ensures |r| <= |out| + |code| + (if group != [] then 1 else 0)
    decreases |code|
  {
    if code == [] then out + Emit(table, group)
    else if code[0] == ' ' then ScanAsWritten(table, code[1..], [], out + Emit(table, group))
    else if code[0] == '/' then ScanAsWritten(table, code[1..], [], out + Emit(table, group) + " ")
    else ScanAsWritten(table, code[1..], group + [code[0]], out)
  }

  /** Wherever the corrected conversion gives a text, the conversion as written gives the same text. */
  lemma {:induction false} ScanAgreesWhileFitting(table: seq<Entry>, code: string, group: string, out: string)
    requires |group| <= MAX_CHAR
    ensures Scan(table, code, group, out).Text? ==> Scan(table, code, group, out) == Text(ScanAsWritten(table, code, group, out))
    decreases |code|
  {
    if code != [] {
      if code[0] == ' ' || code[0] == '/' {
        ScanAgreesWhileFitting(table, code[1..], [], if code[0] == ' ' then out + Emit(table, group) else out + Emit(table, group) + " ");
      } else if |group| < MAX_CHAR {
        ScanAgreesWhileFitting(table, code[1..], group + [code[0]], out);
      }
    }
  }

  /** A group of dots, as written, is buffered whole before it is looked up. */
  lemma {:induction false} AsWrittenBuffersGroup(table: seq<Entry>, n: nat, group: string)
    requires n >= 1
    ensures ScanAsWritten(table, Dots(n, ""), group, []) == ScanAsWritten(table, [], group + Dots(n, ""), [])
    decreases n
  {
    if n > 1 {
      DotsFront(n, "");
      assert Dots(n, "") == "." + Dots(n - 1, "");
      assert ("." + Dots(n - 1, ""))[1..] == Dots(n - 1, "");
      AsWrittenBuffersGroup(table, n - 1, group + ".");
      assert group + "." + Dots(n - 1, "") == group + Dots(n, "");
    }
  }

  /**
   * Seven dots without a letter gap are one group of MAX_CHAR + 1 symbols.
   * As written, the conversion buffers all seven in `morseChar` and writes
   * their NUL at `morseChar[7]`, one past the end, and the loop flushes
   * what it looks up; the corrected conversion reports the group, and the
   * corrected receiver reports the flush as failed.
   */
  lemma GroupOverrun()
    ensures var s := RunAsWritten(Initial, DotTrain(7, 1)).0;
      && s == Snapshot(0, 1, Dots(7, "")) && |s.symbols| == MAX_CHAR + 1
      && ScanAsWritten(MorseMap, s.symbols, [], []) == ScanAsWritten(MorseMap, [], s.symbols, [])
    ensures var ts := RunAsWritten(Initial, DotTrain(7, 1) + Lows(FLUSH_LOW)).1;
      ts != [] && ts[|ts| - 1] == Flushed(Dots(7, ""), ScanAsWritten(MorseMap, [], Dots(7, ""), []))
    ensures var ts := Run(Initial, true, DotTrain(7, 1) + Lows(FLUSH_LOW)).1;
      && MorseToText(Dots(7, "")) == GroupOverflow
      && ts != [] && ts[|ts| - 1] == FlushFailed(Dots(7, ""), GroupTooLong)
  {
    var d := Dots(7, "");
    DotsLength(7, "");
    assert GapMarks(1) == "";
    TrainReaches(7, 1);
    RunAgreesWhileAccepted(Initial, DotTrain(7, 1));
    AsWrittenBuffersGroup(MorseMap, 7, []);
    assert [] + d == d;
    SevenDotsOverflow(MorseMap);
    FlushAfterTrain(DotTrain(7, 1), d, 1);
  }

  /** Seven dots in a row are one group too long for `morseChar`, whatever the table. */
  lemma SevenDotsOverflow(table: seq<Entry>)
    ensures Decode(table, Dots(7, "")) == GroupOverflow
  {
    var d := Dots(7, "");
    DotsLength(7, "");
    DotsAllDots(7);
    assert NoSeparator(d);
    DecodeFinalGroup(table, d);
  }

  lemma {:induction false} DotsAllDots(n: nat)
    requires n >= 1
    ensures forall k :: 0 <= k < |Dots(n, "")| ==> Dots(n, "")[k] == '.'
    decreases n
  {
    if n > 1 {
      DotsAllDots(n - 1);
      assert Dots(n, "") == Dots(n - 1, "") + "" + ".";
    }
  }
}
