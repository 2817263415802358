/**
 * The sampling loop of lab5_2's `app_main`: one tick classifies the ADC
 * reading as high or low, turns finished runs into Morse marks in the
 * `message` buffer, and flushes the buffer through the decoder after a long
 * silence.
 */
module MorseReceiver {
  import opened MorseAlphabet
  import opened MorseText

  /** Calibrated voltage (mV) at or above which a sample counts as high. */
  const THRESHOLD := 700
  /** Size of the `message` buffer, the terminating NUL included. */
  const MESSAGE_SIZE := 200
  /** Size of the `asciiString` buffer the flush decodes into, the NUL included. */
  const TEXT_SIZE := 100
  /** A low run longer than this many ticks ends the transmission. */
  const FLUSH_LOW := 80

  /** Marks appended when a low run of `lowCount` ticks ends: a letter gap or a word gap. */
  function GapMarks(lowCount: int): string {
    (if 18 < lowCount < 22 then " " else "") + (if 53 < lowCount < 57 then " / " else "")
  }

  /** Marks appended when a high run of `highCount` ticks ends: a dot or a dash. */
  function PulseMarks(highCount: int): string {
    (if 3 < highCount < 7 then "." else "") + (if 13 < highCount < 17 then "-" else "")
  }

  /** Why a flush produced no text. */
  datatype FlushError = GroupTooLong | TextTooLong

  /** What one tick reports. */
  datatype Tick =
    | Quiet                                          // nothing to report
    | Rejected(marks: string)                        // marks dropped: the buffer is full
    | Flushed(symbols: string, text: string)         // the buffer was decoded and cleared
    | FlushFailed(symbols: string, error: FlushError) // the buffer was cleared without text

  /** The receiver's state: the two run counters and the symbols buffered so far. */
  datatype Snapshot = Snapshot(highCount: nat, lowCount: nat, symbols: string)

  const Initial := Snapshot(0, 0, [])

  /** The characters the classifier writes into the buffer. */
  predicate IsMark(c: char) {
    c == '.' || c == '-' || c == ' ' || c == '/'
  }

  /**
   * What holds between ticks: the buffer leaves room for the NUL, holds only
   * marks, at most one run counter is running, and no symbols are left
   * buffered through a silence longer than FLUSH_LOW.
   */
  predicate Consistent(s: Snapshot) {
    && |s.symbols| < MESSAGE_SIZE
    && (forall k :: 0 <= k < |s.symbols| ==> IsMark(s.symbols[k]))
    && (s.highCount == 0 || s.lowCount == 0)
    && (s.lowCount > FLUSH_LOW ==> s.symbols == [])
  }

  /** The flush: decode the buffered symbols into text that must fit `asciiString`. */
  function Report(symbols: string): (r: Tick)
    ensures (r.Flushed? || r.FlushFailed?) && r.symbols == symbols
    ensures r.Flushed? <==> MorseToText(symbols).Text? && |MorseToText(symbols).text| < TEXT_SIZE
    ensures r.Flushed? ==> MorseToText(symbols) == Text(r.text)
    ensures r.FlushFailed? ==> (r.error == GroupTooLong <==> MorseToText(symbols) == GroupOverflow)
  {
    match MorseToText(symbols)
    case GroupOverflow => FlushFailed(symbols, GroupTooLong)
    case Text(t) => if |t| < TEXT_SIZE then Flushed(symbols, t) else FlushFailed(symbols, TextTooLong)
  }

  /**
   * The sampling half of a tick on the reading `voltage`: the run counters
   * move on, the marks of the run that ended are appended when they fit
   * with the NUL, and are reported dropped otherwise.
   */
  function Classify(s: Snapshot, voltage: int): (Snapshot, Tick) {
    var high := voltage >= THRESHOLD;
    var h := if high then s.highCount + 1 else 0;
    var l := if high then 0 else s.lowCount + 1;
    var marks := if high then GapMarks(s.lowCount) else PulseMarks(s.highCount);
    var fits := |s.symbols| + |marks| < MESSAGE_SIZE;
    (Snapshot(h, l, if fits then s.symbols + marks else s.symbols), if fits then Quiet else Rejected(marks))
  }

  /** One tick of the loop on the reading `voltage`, when calibration is `calibrated`. */
  function Next(s: Snapshot, calibrated: bool, voltage: int): (Snapshot, Tick) {
    if !calibrated then (s, Quiet)
    else
      var (c, t) := Classify(s, voltage);
      if c.lowCount > FLUSH_LOW && |c.symbols| > 0 then (Snapshot(c.highCount, 0, []), Report(c.symbols))
      else (c, t)
  }

  /** The loop run over a finite sequence of readings: the final state and every tick's report. */
  function Run(s: Snapshot, calibrated: bool, voltages: seq<int>): (Snapshot, seq<Tick>)
    decreases |voltages|
  {
    if voltages == [] then (s, [])
    else
      var (s1, t1) := Next(s, calibrated, voltages[0]);
      var (s2, ts) := Run(s1, calibrated, voltages[1..]);
      (s2, [t1] + ts)
  }

  predicate IsFlush(t: Tick) {
    t.Flushed? || t.FlushFailed?
  }

  // ---------------------------------------------------------------------
  // Properties of one tick.

  /** Without calibration a tick changes nothing and reports nothing. */
  lemma UncalibratedTickChangesNothing(s: Snapshot, voltage: int)
    ensures Next(s, false, voltage) == (s, Quiet)
  {
  }

  /** The gap windows and the pulse windows are disjoint: one tick adds at most three marks. */
  lemma WindowsDisjoint(n: int)
    ensures GapMarks(n) == (if 19 <= n <= 21 then " " else if 54 <= n <= 56 then " / " else "")
    ensures PulseMarks(n) == (if 4 <= n <= 6 then "." else if 14 <= n <= 16 then "-" else "")
    ensures |GapMarks(n)| <= 3 && |PulseMarks(n)| <= 1
  {
  }

  /**
   * A high sample: the high run grows by one, the low run ends, and a letter
   * gap (19..21 ticks) adds ' ' and a word gap (54..56 ticks) adds " / ";
   * a high sample never flushes.
   */
  lemma HighSample(s: Snapshot, voltage: int)
    requires Consistent(s) && voltage >= THRESHOLD
    ensures var (s', t) := Next(s, true, voltage);
      var marks := if 19 <= s.lowCount <= 21 then " " else if 54 <= s.lowCount <= 56 then " / " else "";
      && s'.highCount == s.highCount + 1 && s'.lowCount == 0
      && (t == Quiet || t == Rejected(marks))
      && (t == Quiet ==> s'.symbols == s.symbols + marks)
      && (t.Rejected? ==> s'.symbols == s.symbols && |s.symbols| + |marks| >= MESSAGE_SIZE)
  {
    WindowsDisjoint(s.lowCount);
  }

  /**
   * A low sample: the low run grows by one, the high run ends, and a run of
   * 4..6 high ticks adds '.' and one of 14..16 adds '-'; a flush follows
   * exactly when the low run passes FLUSH_LOW with symbols buffered.
   */
  lemma LowSample(s: Snapshot, voltage: int)
    requires Consistent(s) && voltage < THRESHOLD
    ensures var (s', t) := Next(s, true, voltage);
      var marks := if 4 <= s.highCount <= 6 then "." else if 14 <= s.highCount <= 16 then "-" else "";
      && s'.highCount == 0
      && (IsFlush(t) <==> s.lowCount == FLUSH_LOW && s.symbols != [])
      && (IsFlush(t) ==> s' == Snapshot(0, 0, []) && t == Report(s.symbols))
      && (!IsFlush(t) ==> s'.lowCount == s.lowCount + 1)
      && (t == Quiet ==> s'.symbols == s.symbols + marks)
      && (t.Rejected? ==> t.marks == marks && s'.symbols == s.symbols && |s.symbols| + |marks| >= MESSAGE_SIZE)
  {
    WindowsDisjoint(s.highCount);
    if s.lowCount == FLUSH_LOW {
      assert PulseMarks(s.highCount) == "";
      assert s.symbols + "" == s.symbols;
    }
  }

  /** A flush needs buffered symbols, and empties the buffer and the low counter. */
  lemma NoFlushOfEmptyBuffer(s: Snapshot, calibrated: bool, voltage: int)
    requires Consistent(s)
    ensures var (s', t) := Next(s, calibrated, voltage);
      IsFlush(t) ==> t.symbols != [] && t.symbols == s.symbols && s'.symbols == [] && s'.lowCount == 0
  {
  }

  /**
   * A tick keeps the buffered symbols and appends at most three marks, or
   * flushes them all; marks are dropped only when they would not fit.
   */
  lemma TickAppendsAtMostThree(s: Snapshot, calibrated: bool, voltage: int)
    requires Consistent(s)
    ensures var (s', t) := Next(s, calibrated, voltage);
      || (IsFlush(t) && s'.symbols == [])
      || (!IsFlush(t) && s.symbols <= s'.symbols && |s'.symbols| <= |s.symbols| + 3)
    ensures var (s', t) := Next(s, calibrated, voltage);
      t.Rejected? ==> t.marks != [] && |s.symbols| + |t.marks| >= MESSAGE_SIZE && s'.symbols == s.symbols
  {
    WindowsDisjoint(s.lowCount);
    WindowsDisjoint(s.highCount);
  }

  /** The classifier writes marks only. */
  lemma MarksAreMarks(n: int)
    ensures forall k :: 0 <= k < |GapMarks(n)| ==> IsMark(GapMarks(n)[k])
    ensures forall k :: 0 <= k < |PulseMarks(n)| ==> IsMark(PulseMarks(n)[k])
  {
    WindowsDisjoint(n);
  }

  /** Appending marks to a buffer of marks gives a buffer of marks. */
  lemma AppendMarks(symbols: string, marks: string)
    requires forall k :: 0 <= k < |symbols| ==> IsMark(symbols[k])
    requires forall k :: 0 <= k < |marks| ==> IsMark(marks[k])
    ensures forall k :: 0 <= k < |symbols + marks| ==> IsMark((symbols + marks)[k])
  {
  }

  /** Every tick keeps the receiver consistent. */
  lemma TickKeepsConsistent(s: Snapshot, calibrated: bool, voltage: int)
    requires Consistent(s)
    ensures Consistent(Next(s, calibrated, voltage).0)
  {
    if calibrated {
      var marks := if voltage >= THRESHOLD then GapMarks(s.lowCount) else PulseMarks(s.highCount);
      MarksAreMarks(s.lowCount);
      MarksAreMarks(s.highCount);
      AppendMarks(s.symbols, marks);
    }
  }

  /** A flushed text is the conversion of the buffered symbols and fits `asciiString`. */
  lemma FlushedTextFits(s: Snapshot, calibrated: bool, voltage: int)
    requires Consistent(s)
    ensures var (s', t) := Next(s, calibrated, voltage);
      t.Flushed? ==> MorseToText(t.symbols) == Text(t.text) && |t.text| + 1 <= TEXT_SIZE
  {
  }

  /** The whole run keeps the receiver consistent and reports one tick per reading. */
  lemma {:induction false} RunKeepsConsistent(s: Snapshot, calibrated: bool, voltages: seq<int>)
    requires Consistent(s)
    ensures Consistent(Run(s, calibrated, voltages).0)
    ensures |Run(s, calibrated, voltages).1| == |voltages|
    decreases |voltages|
  {
    if voltages != [] {
      TickKeepsConsistent(s, calibrated, voltages[0]);
      RunKeepsConsistent(Next(s, calibrated, voltages[0]).0, calibrated, voltages[1..]);
    }
  }

  /** After a flush the line must go high again before another flush: a silence flushes once. */
  lemma {:induction false} SilenceFlushesOnce(s: Snapshot, voltages: seq<int>)
    requires s.symbols == [] && s.highCount == 0
    requires forall k :: 0 <= k < |voltages| ==> voltages[k] < THRESHOLD
    ensures var (s', ts) := Run(s, true, voltages);
      s'.symbols == [] && s'.highCount == 0 && forall k :: 0 <= k < |ts| ==> ts[k] == Quiet
    decreases |voltages|
  {
    if voltages != [] {
      var s1 := Next(s, true, voltages[0]).0;
      assert s1 == Snapshot(0, s.lowCount + 1, []);
      SilenceFlushesOnce(s1, voltages[1..]);
    }
  }

  // ---------------------------------------------------------------------
  // The receiver object: the loop's local variables, updated in place.

  class Receiver {
    /** Whether calibration succeeded at start-up; without it the loop ignores the ADC. */
    const calibrated: bool
    var highCount: nat
    var lowCount: nat
    /** The `message` buffer of MESSAGE_SIZE characters. */
    const message: array<char>
    var msgLen: nat

    /** The buffer keeps room for the NUL and holds only marks. */
    ghost predicate Buffered()
      reads this, message
    {
      message.Length == MESSAGE_SIZE && msgLen < MESSAGE_SIZE &&
      forall k :: 0 <= k < msgLen ==> IsMark(message[k])
    }

    ghost predicate Valid()
      reads this, message
    {
      Buffered() && Consistent(State())
    }

    ghost function State(): Snapshot
      reads this, message
      requires msgLen <= message.Length
    {
      Snapshot(highCount, lowCount, message[..msgLen])
    }

    constructor (calibrated: bool)
      ensures Valid() && fresh(message)
      ensures this.calibrated == calibrated && State() == Initial
    {
      this.calibrated := calibrated;
      highCount, lowCount := 0, 0;
      message := new char[MESSAGE_SIZE](_ => '\0');
      msgLen := 0;
    }

    /** Writes `marks` at the end of the buffer when they fit with the NUL, and reports whether they did. */
    method Append(marks: string) returns (ok: bool)
      requires Buffered() && forall k :: 0 <= k < |marks| ==> IsMark(marks[k])
      modifies this`msgLen, message
      ensures Buffered()
      ensures ok == (old(msgLen) + |marks| < MESSAGE_SIZE)
      ensures State().symbols == if ok then old(State().symbols) + marks else old(State().symbols)
    {
      var n := msgLen;
      ok := n + |marks| < MESSAGE_SIZE;
      if ok {
        ghost var before := message[..n];
        for k := 0 to |marks|
          invariant msgLen == n
          invariant message[..n + k] == before + marks[..k]
        {
          message[n + k] := marks[k];
          assert message[..n + k + 1] == message[..n + k] + [marks[k]];
          assert marks[..k + 1] == marks[..k] + [marks[k]];
        }
        msgLen := n + |marks|;
        assert marks[..|marks|] == marks;
        assert forall k :: 0 <= k < msgLen ==> message[k] == message[..msgLen][k];
      }
    }

    /** The classification half of the loop body, on the reading `voltage`. */
    method Sample(voltage: int) returns (tick: Tick)
      requires Buffered()
      modifies this, message
      ensures Buffered()
      ensures (State(), tick) == Classify(old(State()), voltage)
    {
      ghost var s := State();
      WindowsDisjoint(lowCount);
      WindowsDisjoint(highCount);
      MarksAreMarks(lowCount);
      MarksAreMarks(highCount);
      tick := Quiet;
      var ok := true;
      if voltage >= THRESHOLD {
        highCount := highCount + 1;
        if 18 < lowCount < 22 {
          ok := Append(" ");
        }
        if 53 < lowCount < 57 {
          ok := Append(" / ");
        }
        if !ok {
          tick := Rejected(GapMarks(lowCount));
        }
        lowCount := 0;
      } else {
        lowCount := lowCount + 1;
        if 3 < highCount < 7 {
          ok := Append(".");
        }
        if 13 < highCount < 17 {
          ok := Append("-");
        }
        if !ok {
          tick := Rejected(PulseMarks(highCount));
        }
        highCount := 0;
      }
      ghost var marks := if voltage >= THRESHOLD then GapMarks(s.lowCount) else PulseMarks(s.highCount);
      ghost var fits := |s.symbols| + |marks| < MESSAGE_SIZE;
      assert State().symbols == if fits then s.symbols + marks else s.symbols;
      assert tick == if fits then Quiet else Rejected(marks);
    }

    /** One iteration of the loop body, on the reading `voltage`. */
    method Step(voltage: int) returns (tick: Tick)
      requires Valid()
      modifies this, message
      ensures Valid()
      ensures (State(), tick) == Next(old(State()), calibrated, voltage)
    {
      ghost var s := State();
      if !calibrated {
        return Quiet;
      }
      tick := Sample(voltage);
      if lowCount > FLUSH_LOW && msgLen > 0 {
        message[msgLen] := '\0';
        var symbols := message[..msgLen];
        var decoded := MorseToAsciiString(symbols);
        match decoded {
          case GroupOverflow =>
            tick := FlushFailed(symbols, GroupTooLong);
          case Text(t) =>
            tick := if |t| < TEXT_SIZE then Flushed(symbols, t) else FlushFailed(symbols, TextTooLong);
        }
        lowCount, msgLen := 0, 0;
      }
      TickKeepsConsistent(s, calibrated, voltage);
    }

    /** The `while (1)` loop run over a finite sequence of readings. */
    method Poll(voltages: seq<int>) returns (ticks: seq<Tick>)
      requires Valid()
      modifies this, message
      ensures Valid()
      ensures (State(), ticks) == Run(old(State()), calibrated, voltages)
    {
      ghost var whole := Run(State(), calibrated, voltages);
      ticks := [];
      assert voltages[0..] == voltages;
      for i := 0 to |voltages|
        invariant Valid()
        invariant whole.0 == Run(State(), calibrated, voltages[i..]).0
        invariant whole.1 == ticks + Run(State(), calibrated, voltages[i..]).1
      {
        ghost var before := State();
        var tick := Step(voltages[i]);
        assert voltages[i..][1..] == voltages[i + 1..];
        ghost var rest := Run(State(), calibrated, voltages[i + 1..]);
        assert Run(before, calibrated, voltages[i..]) == (rest.0, [tick] + rest.1);
        assert ticks + ([tick] + rest.1) == (ticks + [tick]) + rest.1;
        ticks := ticks + [tick];
      }
      assert voltages[|voltages|..] == [];
      assert ticks + [] == ticks;
    }
  }
}
