/**
 * What the DSC reader promises, stated over the model in `Dsc`: how the scan
 * dispatches, which line a value comes from, which value wins, where a read
 * fails, and what each field's branch accepts.
 */
module DscProperties {
  import opened Wrappers
  import opened Text
  import opened Chipboard
  import opened Floats
  import opened Calendar
  import opened Dsc
  import PixelmanTime

  // ---------------------------------------------------------------------------
  // Label dispatch
  // ---------------------------------------------------------------------------

  /**
   * A line takes the branch of `f` exactly when it carries `f`'s label and the
   * label of no field tested earlier.
   */
  lemma LabelOfIff(line: string, f: Field)
    ensures LabelOf(line) == Some(f) <==>
      Matches(f, line) && forall g :: Rank(g) < Rank(f) ==> !Matches(g, line)
  {
    if Matches(f, line) && forall g :: Rank(g) < Rank(f) ==> !Matches(g, line) {
      var r := LabelOf(line);
      assert r.Some?;
      ChainRanks();
      assert Rank(r.value) == Rank(f);
      assert r.value == Chain[Rank(f)];
    }
  }

  /** The Timepix-clock label is found whatever the case of its letters. */
  lemma TpxClockLabelAnyCase(before: string, after: string)
    ensures Matches(TpxClock, before + "TIMEPIX CLOCK" + after)
    ensures Matches(TpxClock, before + "timepix Clock" + after)
  {
    assert Lower("TIMEPIX CLOCK") == Lower(Label(TpxClock));
    assert Lower("timepix Clock") == Lower(Label(TpxClock));
    SpellingAnyCase(TpxClock, before, "TIMEPIX CLOCK", after);
    SpellingAnyCase(TpxClock, before, "timepix Clock", after);
  }

  /** The bias-voltage label is found whatever the case of its letters. */
  lemma BiasVoltageLabelAnyCase(before: string, after: string)
    ensures Matches(BiasVoltage, before + "\"hv\" (\"bias voltage [v]\"):" + after)
    ensures Matches(BiasVoltage, before + "\"HV\" (\"BIAS VOLTAGE [V]\"):" + after)
  {
    BiasSpellingsLowered();
    SpellingAnyCase(BiasVoltage, before, "\"hv\" (\"bias voltage [v]\"):", after);
    SpellingAnyCase(BiasVoltage, before, "\"HV\" (\"BIAS VOLTAGE [V]\"):", after);
  }

  /** The three spellings of the bias-voltage label lower to the same string. */
  lemma BiasSpellingsLowered()
    ensures Lower(Label(BiasVoltage)) == "\"hv\" (\"bias voltage [v]\"):"
    ensures Lower("\"hv\" (\"bias voltage [v]\"):") == "\"hv\" (\"bias voltage [v]\"):"
    ensures Lower("\"HV\" (\"BIAS VOLTAGE [V]\"):") == "\"hv\" (\"bias voltage [v]\"):"
  {
    BiasLabelLowered();
    BiasLowerCaseLowered();
    BiasUpperCaseLowered();
  }

  lemma BiasLabelLowered()
    ensures Lower(Label(BiasVoltage)) == "\"hv\" (\"bias voltage [v]\"):"
  {
    UpperChunksLowered();
    BiasSpellingLowered("\"HV\" (\"", "Bias vo", "ltage [V]\"):");
  }

  lemma BiasLowerCaseLowered()
    ensures Lower("\"hv\" (\"bias voltage [v]\"):") == "\"hv\" (\"bias voltage [v]\"):"
  {
    BiasSpellingLowered("\"hv\" (\"", "bias vo", "ltage [v]\"):");
  }

  lemma BiasUpperCaseLowered()
    ensures Lower("\"HV\" (\"BIAS VOLTAGE [V]\"):") == "\"hv\" (\"bias voltage [v]\"):"
  {
    UpperChunksLowered();
    BiasSpellingLowered("\"HV\" (\"", "BIAS VO", "LTAGE [V]\"):");
  }

  lemma UpperChunksLowered()
    ensures Lower("\"HV\" (\"") == "\"hv\" (\""
    ensures Lower("BIAS VO") == "bias vo"
    ensures Lower("Bias vo") == "bias vo"
    ensures Lower("LTAGE [V]\"):") == "ltage [v]\"):"
  {
    LowerConcat("BIA", "S VO");
    LowerConcat("LTA", "GE [V]\"):");
  }

  lemma BiasSpellingLowered(a: string, b: string, c: string)
    requires Lower(a) == "\"hv\" (\"" && Lower(b) == "bias vo" && Lower(c) == "ltage [v]\"):"
    ensures Lower(a + b + c) == "\"hv\" (\"bias voltage [v]\"):"
  {
    LowerInChunks(a, b, c, "\"hv\" (\"", "bias vo", "ltage [v]\"):");
  }

  /** Lowers a long literal a piece at a time. */
  lemma LowerInChunks(a: string, b: string, c: string, la: string, lb: string, lc: string)
    requires Lower(a) == la && Lower(b) == lb && Lower(c) == lc
    ensures Lower(a + b + c) == la + lb + lc
  {
    LowerConcat(a + b, c);
    LowerConcat(a, b);
  }

  /** For a label looked for ignoring case, any spelling that lowers to the label's is found, wherever it sits. */
  lemma SpellingAnyCase(f: Field, before: string, m: string, after: string)
    requires IgnoresCase(f) && Lower(m) == Lower(Label(f))
    ensures Matches(f, before + m + after)
  {
    var x := before + m + after;
    LowerConcat(before + m, after);
    LowerConcat(before, m);
    assert Lower(x)[|before|..|before| + |m|] == Lower(m);
    assert OccursAt(Lower(x), Lower(Label(f)), |before|);
    ContainsIff(Lower(x), Lower(Label(f)));
  }

  // ---------------------------------------------------------------------------
  // The value comes from line i + 2
  // ---------------------------------------------------------------------------

  /**
   * A branch taken on line `i` reads nothing but line `i + 2` (and, for the
   * Timepix clock, the marker on line `i + 1`): two files that agree there give
   * the same outcome, wherever the label sits.
   */
  lemma ReadValueLocal(f: Field, lines: seq<string>, i: nat, other: seq<string>, j: nat, fl: FloatLib)
    requires LineAt(lines, i + 2) == LineAt(other, j + 2)
    requires LineAt(lines, i + 1) == LineAt(other, j + 1)
    ensures ReadValue(f, lines, i, fl) == ReadValue(f, other, j, fl)
  {
  }

  /**
   * A label with no line two below it fails the read: the start-time branch
   * reports `BadStartTime` (its guard catches every exception), the others let
   * the IndexError escape. The Timepix clock reads line `i + 2` only under a
   * `byte[1]` or `double[1]` marker; with line `i + 1` missing it fails as well.
   */
  lemma MissingValueLine(f: Field, lines: seq<string>, i: nat, fl: FloatLib)
    requires |lines| <= i + 2
    requires f == TpxClock && i + 1 < |lines| ==>
      Contains(Strip(lines[i + 1]), "byte[1]") || Contains(Strip(lines[i + 1]), "double[1]")
    ensures ReadValue(f, lines, i, fl) == Failure(if f == StartTime then BadStartTime else Unhandled)
  {
  }

  // ---------------------------------------------------------------------------
  // The scan: the last occurrence wins, the first failure aborts
  // ---------------------------------------------------------------------------

  /** The last line at or after `lo` that takes the branch of `f`. */
  function LastLabelled(lines: seq<string>, lo: nat, f: Field, labeller: Labeller): (r: Option<nat>)
    requires lo <= |lines|
    ensures r.Some? ==> lo <= r.value < |lines| && labeller(lines[r.value]) == Some(f)
    ensures r.Some? ==> forall j :: r.value < j < |lines| ==> labeller(lines[j]) != Some(f)
    ensures r.None? ==> forall j :: lo <= j < |lines| ==> labeller(lines[j]) != Some(f)
    decreases |lines| - lo
  {
    if lo == |lines| then None
    else
      match LastLabelled(lines, lo + 1, f, labeller)
      case Some(j) => Some(j)
      case None => if labeller(lines[lo]) == Some(f) then Some(lo) else None
  }

  /** The error line `j` raises, if the branch it takes fails. */
  function LineError(lines: seq<string>, j: nat, labeller: Labeller, read: Reader): Option<DscError>
    requires j < |lines|
  {
    match labeller(lines[j])
    case None => None
    case Some(f) => if read(f, j).Failure? then Some(read(f, j).error) else None
  }

  /** One step of the scan: it fails with the line's error, or stores the value the line's branch read. */
  lemma StepEffect(lines: seq<string>, i: nat, rec: DscRecord, labeller: Labeller, read: Reader)
    requires i < |lines| && Checked(read)
    ensures Step(lines, i, rec, labeller, read).Failure? <==> LineError(lines, i, labeller, read).Some?
    ensures Step(lines, i, rec, labeller, read).Failure? ==>
      LineError(lines, i, labeller, read) == Some(Step(lines, i, rec, labeller, read).error)
    ensures labeller(lines[i]).None? ==> Step(lines, i, rec, labeller, read) == Success(rec)
    ensures labeller(lines[i]).Some? && Step(lines, i, rec, labeller, read).Success? ==>
      var g := labeller(lines[i]).value;
      read(g, i).Success? && Step(lines, i, rec, labeller, read).value == Set(rec, g, read(g, i).value)
  {
  }

  /**
   * After a successful scan from line `i`, a field holds the value read at the
   * last line that takes its branch; a field no line labels keeps its value.
   */
  lemma {:induction false} ScanKeepsLastValue(lines: seq<string>, i: nat, rec: DscRecord, labeller: Labeller, read: Reader, f: Field)
    requires i <= |lines| && Checked(read)
    requires Scan(lines, i, rec, labeller, read).Success?
    ensures LastLabelled(lines, i, f, labeller).None? ==> Get(Scan(lines, i, rec, labeller, read).value, f) == Get(rec, f)
    ensures LastLabelled(lines, i, f, labeller).Some? ==>
      var j := LastLabelled(lines, i, f, labeller).value;
      read(f, j).Success? && Get(Scan(lines, i, rec, labeller, read).value, f) == Some(read(f, j).value)
    decreases |lines| - i
  {
    if i < |lines| {
      StepEffect(lines, i, rec, labeller, read);
      var next := Step(lines, i, rec, labeller, read).value;
      assert Scan(lines, i, rec, labeller, read) == Scan(lines, i + 1, next, labeller, read);
      ScanKeepsLastValue(lines, i + 1, next, labeller, read, f);
      if LastLabelled(lines, i + 1, f, labeller).None? {
        if labeller(lines[i]) == Some(f) {
          assert Get(next, f) == Some(read(f, i).value);
        } else {
          assert Get(next, f) == Get(rec, f);
        }
      }
    }
  }

  /**
   * The scan from line `i` succeeds exactly when no line from `i` on fails, and a
   * failed scan reports the error of the first failing line.
   */
  lemma {:induction false} ScanFailsAtFirstError(lines: seq<string>, i: nat, rec: DscRecord, labeller: Labeller, read: Reader)
    requires i <= |lines| && Checked(read)
    ensures Scan(lines, i, rec, labeller, read).Success? <==> forall j :: i <= j < |lines| ==> LineError(lines, j, labeller, read).None?
    ensures Scan(lines, i, rec, labeller, read).Failure? ==>
      exists j :: i <= j < |lines| && LineError(lines, j, labeller, read) == Some(Scan(lines, i, rec, labeller, read).error)
        && forall k :: i <= k < j ==> LineError(lines, k, labeller, read).None?
    decreases |lines| - i
  {
    if i < |lines| {
      StepEffect(lines, i, rec, labeller, read);
      if Step(lines, i, rec, labeller, read).Failure? {
        assert Scan(lines, i, rec, labeller, read) == Failure(Step(lines, i, rec, labeller, read).error);
      } else {
        var next := Step(lines, i, rec, labeller, read).value;
        assert Scan(lines, i, rec, labeller, read) == Scan(lines, i + 1, next, labeller, read);
        ScanFailsAtFirstError(lines, i + 1, next, labeller, read);
        if Scan(lines, i + 1, next, labeller, read).Failure? {
          var e := Scan(lines, i + 1, next, labeller, read).error;
          var j :| i + 1 <= j < |lines| && LineError(lines, j, labeller, read) == Some(e)
            && forall k :: i + 1 <= k < j ==> LineError(lines, k, labeller, read).None?;
          assert forall k :: i <= k < j ==> LineError(lines, k, labeller, read).None?;
        }
      }
    }
  }

  /**
   * A read succeeds exactly when the frame size is good and no line's branch
   * fails; the size is checked first, then the first failing line decides the error.
   */
  lemma ParseOutcome(name: string, lines: seq<string>, fl: FloatLib)
    ensures Parse(name, lines, fl).Success? <==>
      ReadDimensions(lines).Success? && forall j :: 0 <= j < |lines| ==> LineError(lines, j, LabelOf, BranchReader(lines, fl)).None?
    ensures ReadDimensions(lines).Success? && Parse(name, lines, fl).Failure? ==>
      exists j :: 0 <= j < |lines| && LineError(lines, j, LabelOf, BranchReader(lines, fl)) == Some(Parse(name, lines, fl).error)
        && forall k :: 0 <= k < j ==> LineError(lines, k, LabelOf, BranchReader(lines, fl)).None?
  {
    if ReadDimensions(lines).Success? {
      var dims := ReadDimensions(lines).value;
      ScanFailsAtFirstError(lines, 0, Initial(name, dims.0, dims.1), LabelOf, BranchReader(lines, fl));
    }
  }

  /**
   * Each field of a successful read holds the value read at the last line that
   * takes its branch, and stays `None` if no line does.
   */
  lemma ParseKeepsLastValue(name: string, lines: seq<string>, fl: FloatLib, f: Field)
    requires Parse(name, lines, fl).Success?
    ensures LastLabelled(lines, 0, f, LabelOf).None? ==> Get(Parse(name, lines, fl).value, f).None?
    ensures LastLabelled(lines, 0, f, LabelOf).Some? ==>
      var j := LastLabelled(lines, 0, f, LabelOf).value;
      ReadValue(f, lines, j, fl).Success? && Get(Parse(name, lines, fl).value, f) == Some(ReadValue(f, lines, j, fl).value)
  {
    var dims := ReadDimensions(lines).value;
    ScanKeepsLastValue(lines, 0, Initial(name, dims.0, dims.1), LabelOf, BranchReader(lines, fl), f);
  }

  /** A field whose label no line carries is `None` after a successful read. */
  lemma AbsentLabelLeavesNone(name: string, lines: seq<string>, fl: FloatLib, f: Field)
    requires Parse(name, lines, fl).Success?
    requires forall j :: 0 <= j < |lines| ==> !Matches(f, lines[j])
    ensures Get(Parse(name, lines, fl).value, f).None?
  {
    ParseKeepsLastValue(name, lines, fl, f);
  }

  // ---------------------------------------------------------------------------
  // Frame size
  // ---------------------------------------------------------------------------

  /** `key=n` is read as `n` whenever the key holds no `=`. */
  lemma SizeValueOf(key: string, n: int)
    requires '=' !in key
    ensures SizeValue(key + "=" + IntToString(n)) == Success(n)
  {
    IntToStringNoSpace(n);
    JoinTwo(key, IntToString(n), '=');
    SplitJoin([key, IntToString(n)], '=');
    ParseIntOfString(n);
  }

  /**
   * The size line round trip: tokens 2 and 3 of line 2 spelled `key=width` and
   * `key=height` (single spaces between tokens, any whitespace around the line)
   * give back the pair when both lie in [256, 1024]; otherwise the read fails
   * with `BadWidth`, or with `BadHeight` once the width is good.
   */
  lemma DimensionsRoundTrip(lines: seq<string>, t0: string, t1: string, k1: string, k2: string,
                            w: int, h: int, rest: seq<string>, p: string, q: string)
    requires |lines| >= 3
    requires AllSpace(p) && AllSpace(q)
    requires '=' !in k1 && '=' !in k2
    requires var tokens := [t0, t1, k1 + "=" + IntToString(w), k2 + "=" + IntToString(h)] + rest;
      lines[2] == p + Join(tokens, ' ') + q
      && forall k :: 0 <= k < |tokens| ==> tokens[k] != [] && NoSpace(tokens[k])
    ensures ReadDimensions(lines) ==
      if !InSizeRange(w) then Failure(BadWidth)
      else if !InSizeRange(h) then Failure(BadHeight)
      else Success((w, h))
  {
    var tokens := [t0, t1, k1 + "=" + IntToString(w), k2 + "=" + IntToString(h)] + rest;
    var s := Join(tokens, ' ');
    JoinEnds(tokens, ' ');
    assert tokens[|tokens| - 1] != [] && NoSpace(tokens[|tokens| - 1]);
    assert IsStripped(s);
    StripPadded(p, s, q);
    forall k | 0 <= k < |tokens|
      ensures ' ' !in tokens[k]
    {
      assert NoSpace(tokens[k]);
    }
    SplitJoin(tokens, ' ');
    assert tokens[2] == k1 + "=" + IntToString(w) && tokens[3] == k2 + "=" + IntToString(h);
    SizeValueOf(k1, w);
    SizeValueOf(k2, h);
  }

  /**
   * A width token `key=s` whose `s` is no integer lets the ValueError escape:
   * only a TypeError is caught around the conversion.
   */
  lemma SizeTokenNotInteger(lines: seq<string>, key: string, s: string)
    requires |lines| >= 3
    requires var tokens := Split(Strip(lines[2]), ' '); |tokens| >= 3 && tokens[2] == key + "=" + s
    requires '=' !in key && '=' !in s && ParseInt(s).None?
    ensures ReadDimensions(lines) == Failure(Unhandled)
  {
    SizeValueNotInteger(key, s);
  }

  /** The same for the height token `key=s`, once the width is good. */
  lemma HeightTokenNotInteger(lines: seq<string>, w: int, key: string, s: string)
    requires |lines| >= 3
    requires var tokens := Split(Strip(lines[2]), ' ');
      |tokens| >= 4 && SizeValue(tokens[2]) == Success(w) && tokens[3] == key + "=" + s
    requires InSizeRange(w)
    requires '=' !in key && '=' !in s && ParseInt(s).None?
    ensures ReadDimensions(lines) == Failure(Unhandled)
  {
    SizeValueNotInteger(key, s);
  }

  lemma SizeValueNotInteger(key: string, s: string)
    requires '=' !in key && '=' !in s && ParseInt(s).None?
    ensures SizeValue(key + "=" + s) == Failure(Unhandled)
  {
    JoinTwo(key, s, '=');
    SplitJoin([key, s], '=');
  }

  // ---------------------------------------------------------------------------
  // Integer fields: acquisition mode, hardware timer, Medipix type, polarity
  // ---------------------------------------------------------------------------

  predicate IsIntField(f: Field) {
    f == AcqMode || f == HwTimer || f == MpxType || f == Polarity
  }

  /** The values an integer field accepts: Medipix type 1-3, polarity 0 or 1, anything otherwise. */
  predicate Accepts(f: Field, n: int) {
    (f == MpxType ==> n in {1, 2, 3}) && (f == Polarity ==> n in {0, 1})
  }

  /** The message a field's branch raises when its value is bad. */
  function ValueError(f: Field): DscError {
    match f
    case AcqMode => BadAcqMode
    case AcqTime => BadAcqTime
    case BiasVoltage => BadHvValue
    case HwTimer => BadHwTimerMode
    case MpxClock => BadMpxClock
    case MpxType => BadMpxType
    case Polarity => BadPolarity
    case StartTime => BadStartTime
    case _ => Unhandled
  }

  /**
   * An integer written on line `i + 2` (whitespace around it allowed) is stored
   * as is when the field accepts it, and rejected with the field's message otherwise.
   */
  lemma IntFieldRoundTrip(f: Field, lines: seq<string>, i: nat, fl: FloatLib, p: string, n: int, q: string)
    requires IsIntField(f)
    requires i + 2 < |lines| && lines[i + 2] == p + IntToString(n) + q
    requires AllSpace(p) && AllSpace(q)
    ensures ReadValue(f, lines, i, fl) == if Accepts(f, n) then Success(IntValue(n)) else Failure(ValueError(f))
  {
    ParseIntRoundTrip(p, n, q);
    ReadIntOf(LineAt(lines, i + 2), lines[i + 2], n);
  }

  /** `int(line.strip())` is `int(line)`: `int()` strips the line itself. */
  lemma ReadIntOf(v: Option<string>, line: string, n: int)
    requires v == Some(Strip(line)) && ParseInt(line) == Some(n)
    ensures forall e :: ReadInt(v, e) == Success(n)
  {
  }

  /** A value line that is no integer fails with the field's own message. */
  lemma IntFieldRejects(f: Field, lines: seq<string>, i: nat, fl: FloatLib)
    requires IsIntField(f)
    requires i + 2 < |lines| && ParseInt(Strip(lines[i + 2])).None?
    ensures ReadValue(f, lines, i, fl) == Failure(ValueError(f))
  {
  }

  // ---------------------------------------------------------------------------
  // Float fields: acquisition time, Medipix clock, bias voltage
  // ---------------------------------------------------------------------------

  /** The bias-voltage range check lets through exactly [0, 100] and NaN. */
  lemma BiasInRangeIff(hv: Float)
    ensures BiasInRange(hv) <==> hv.NaN? || (hv.Finite? && 0.0 <= hv.value <= 100.0)
  {
  }

  /**
   * Acquisition time and Medipix clock store whatever `float()` makes of the
   * value line, and fail with their own message where it raises.
   */
  lemma FloatFieldReads(f: Field, lines: seq<string>, i: nat, fl: FloatLib)
    requires f == AcqTime || f == MpxClock
    requires i + 2 < |lines|
    ensures ReadValue(f, lines, i, fl).Success? <==> fl.parse(Strip(lines[i + 2])).Some?
    ensures ReadValue(f, lines, i, fl).Success? ==> ReadValue(f, lines, i, fl).value == FloatValue(fl.parse(Strip(lines[i + 2])).value)
    ensures ReadValue(f, lines, i, fl).Failure? ==> ReadValue(f, lines, i, fl).error == ValueError(f)
  {
  }

  /**
   * The bias voltage is stored exactly when it parses and lies in [0, 100] (or
   * is NaN, which no comparison rejects); every other case is `BadHvValue`.
   */
  lemma BiasVoltageReads(lines: seq<string>, i: nat, fl: FloatLib)
    requires i + 2 < |lines|
    ensures var parsed := fl.parse(Strip(lines[i + 2]));
      ReadValue(BiasVoltage, lines, i, fl).Success? <==>
        parsed.Some? && (parsed.value.NaN? || (parsed.value.Finite? && 0.0 <= parsed.value.value <= 100.0))
    ensures ReadValue(BiasVoltage, lines, i, fl).Success? ==>
      ReadValue(BiasVoltage, lines, i, fl).value == FloatValue(fl.parse(Strip(lines[i + 2])).value)
    ensures ReadValue(BiasVoltage, lines, i, fl).Failure? ==> ReadValue(BiasVoltage, lines, i, fl).error == BadHvValue
  {
    var parsed := fl.parse(Strip(lines[i + 2]));
    if parsed.Some? {
      BiasInRangeIff(parsed.value);
    }
  }

  /** A NaN bias voltage passes the range check and is stored. */
  lemma NaNBiasVoltageAccepted(lines: seq<string>, i: nat, fl: FloatLib)
    requires i + 2 < |lines| && fl.parse(Strip(lines[i + 2])) == Some(NaN)
    ensures ReadValue(BiasVoltage, lines, i, fl) == Success(FloatValue(NaN))
  {
    NaNIsUnordered(Finite(0.0));
    NaNIsUnordered(Finite(100.0));
    assert BiasInRange(NaN);
    assert ReadFloat(LineAt(lines, i + 2), fl, BadHvValue) == Success(NaN);
  }

  // ---------------------------------------------------------------------------
  // Text fields and the chipboard ID
  // ---------------------------------------------------------------------------

  predicate IsTextField(f: Field) {
    f == Firmware || f == Interface || f == PixelmanVersion || f == NameAndSN
  }

  /** Firmware, interface, Pixelman version and name+SN store the value line without its surrounding whitespace. */
  lemma TextFieldReads(f: Field, lines: seq<string>, i: nat, fl: FloatLib, p: string, s: string, q: string)
    requires IsTextField(f)
    requires i + 2 < |lines| && lines[i + 2] == p + s + q
    requires AllSpace(p) && AllSpace(q) && IsStripped(s)
    ensures ReadValue(f, lines, i, fl) == Success(TextValue(s))
  {
    StripPadded(p, s, q);
  }

  /** The chipboard ID is stored when it passes the pattern check and aborts the read otherwise. */
  lemma ChipIdFieldReads(lines: seq<string>, i: nat, fl: FloatLib, p: string, s: string, q: string)
    requires i + 2 < |lines| && lines[i + 2] == p + s + q
    requires AllSpace(p) && AllSpace(q) && IsStripped(s)
    ensures ReadValue(ChipId, lines, i, fl) == if IsChipIdValid(s) then Success(TextValue(s)) else Failure(InvalidChipId)
  {
    StripPadded(p, s, q);
    assert LineAt(lines, i + 2) == Some(s);
    ChipIdBranch(LineAt(lines, i + 1), s, fl);
  }

  /** The chipboard-ID branch on a present value line. */
  lemma ChipIdBranch(m: Option<string>, s: string, fl: FloatLib)
    requires IsStripped(s)
    ensures ReadBranch(ChipId, m, Some(s), fl) == if IsChipIdValid(s) then Success(TextValue(s)) else Failure(InvalidChipId)
  {
  }

  // ---------------------------------------------------------------------------
  // DACs
  // ---------------------------------------------------------------------------

  /** The decimal spelling of each value. */
  function Show(ds: seq<int>): seq<string>
  {
    seq(|ds|, k requires 0 <= k < |ds| => IntToString(ds[k]))
  }

  /**
   * The DAC line round trip: integers written with single spaces between them
   * are read back in order, the first fourteen under their names; fewer than
   * fourteen values let an IndexError escape.
   */
  lemma DacsRoundTrip(lines: seq<string>, i: nat, fl: FloatLib, p: string, ds: seq<int>, q: string)
    requires i + 2 < |lines| && lines[i + 2] == p + Join(Show(ds), ' ') + q
    requires AllSpace(p) && AllSpace(q)
    ensures |ds| >= 14 ==> ReadValue(Dacs, lines, i, fl) == Success(DacValue(DacBlockOf(ds)))
    ensures |ds| < 14 ==> ReadValue(Dacs, lines, i, fl) == Failure(Unhandled)
  {
    var s := Join(Show(ds), ' ');
    ShownDacsParse(ds);
    StripPadded(p, s, q);
    DacsOfStripped(lines, i, fl, s);
  }

  /**
   * Spelled-out values joined by single spaces are stripped, and make a DAC
   * block exactly when there are at least fourteen of them, all kept.
   */
  lemma ShownDacsParse(ds: seq<int>)
    ensures IsStripped(Join(Show(ds), ' '))
    ensures ParseDacs(Join(Show(ds), ' ')) == if |ds| >= 14 then Some(DacBlockOf(ds)) else None
  {
    if |ds| == 0 {
      assert Join(Show(ds), ' ') == [];
      ParseDacsEmpty();
    } else {
      ShowParsesBack(ds);
    }
  }

  /** The DAC branch reads the stripped value line as a DAC block, and fails where that raises. */
  lemma DacsOfStripped(lines: seq<string>, i: nat, fl: FloatLib, s: string)
    requires i + 2 < |lines| && Strip(lines[i + 2]) == s
    ensures ReadValue(Dacs, lines, i, fl) ==
      match ParseDacs(s) case None => Failure(Unhandled) case Some(d) => Success(DacValue(d))
  {
    assert LineAt(lines, i + 2) == Some(s);
    DacsBranch(LineAt(lines, i + 1), s, fl);
  }

  /** An empty DAC line is no DAC block: `int('')` raises. */
  lemma ParseDacsEmpty()
    ensures ParseDacs([]).None?
  {
    assert Split([], ' ') == [[]];
  }

  /** Non-empty spelled-out values, joined by single spaces, are stripped and split back into the values. */
  lemma ShowParsesBack(ds: seq<int>)
    requires |ds| >= 1
    ensures IsStripped(Join(Show(ds), ' '))
    ensures ParseAll(Split(Join(Show(ds), ' '), ' ')) == Some(ds)
  {
    var tokens := Show(ds);
    ShowTokens(ds);
    JoinEnds(tokens, ' ');
    assert NoSpace(tokens[|tokens| - 1]);
    SplitJoin(tokens, ' ');
    ParseAllShow(ds);
  }

  /** Each spelled-out value is a non-empty run of non-space characters. */
  lemma ShowTokens(ds: seq<int>)
    ensures forall k :: 0 <= k < |ds| ==> Show(ds)[k] != [] && ' ' !in Show(ds)[k] && NoSpace(Show(ds)[k])
  {
    forall k | 0 <= k < |ds|
      ensures Show(ds)[k] != [] && ' ' !in Show(ds)[k] && NoSpace(Show(ds)[k])
    {
      IntToStringNoSpace(ds[k]);
    }
  }

  /** Parsing the spelled-out values gives them back. */
  lemma {:induction false} ParseAllShow(ds: seq<int>)
    ensures ParseAll(Show(ds)) == Some(ds)
  {
    if |ds| > 0 {
      var t := Show(ds);
      ShowTail(ds);
      ParseIntOfString(ds[0]);
      assert ParseInt(t[0]) == Some(ds[0]);
      ParseAllShow(ds[1..]);
      assert ParseAll(t[1..]) == Some(ds[1..]);
      assert ds == [ds[0]] + ds[1..];
    }
  }

  lemma ShowTail(ds: seq<int>)
    requires |ds| > 0
    ensures |Show(ds)| > 0 && Show(ds)[0] == IntToString(ds[0]) && Show(ds)[1..] == Show(ds[1..])
  {
    assert Show(ds)[1..] == Show(ds[1..]);
  }

  /** A DAC token that is no integer lets the ValueError escape. */
  lemma DacsRejectBadToken(lines: seq<string>, i: nat, fl: FloatLib, k: nat)
    requires i + 2 < |lines|
    requires var tokens := Split(Strip(lines[i + 2]), ' '); k < |tokens| && ParseInt(tokens[k]).None?
    ensures ReadValue(Dacs, lines, i, fl) == Failure(Unhandled)
  {
    var s := Strip(lines[i + 2]);
    ParseDacsRejects(s, k);
    DacsOfStripped(lines, i, fl, s);
  }

  /** The DAC branch on a present value line: the line must parse as a DAC block. */
  lemma DacsBranch(m: Option<string>, s: string, fl: FloatLib)
    requires IsStripped(s)
    ensures ReadBranch(Dacs, m, Some(s), fl) ==
      match ParseDacs(s) case None => Failure(Unhandled) case Some(d) => Success(DacValue(d))
  {
  }

  lemma ParseDacsRejects(s: string, k: nat)
    requires var tokens := Split(s, ' '); k < |tokens| && ParseInt(tokens[k]).None?
    ensures ParseDacs(s).None?
  {
    ParseAllIff(Split(s, ' '));
  }

  // ---------------------------------------------------------------------------
  // Timepix clock
  // ---------------------------------------------------------------------------

  /** The clock-code table: 10, 20, 40 and 80 MHz, each code doubling the clock. */
  lemma TpxClockTableDoubles()
    ensures |TpxClockTable| == 4 && TpxClockTable[0] == 10.0
    ensures forall k :: 0 < k < |TpxClockTable| ==> TpxClockTable[k] == 2.0 * TpxClockTable[k - 1]
  {
  }

  /**
   * With a `byte[1]` marker on line `i + 1`, an integer code on line `i + 2` is
   * looked up in the table, and a code outside 0-3 is `BadTpxClockMode`.
   */
  lemma TpxClockCode(lines: seq<string>, i: nat, fl: FloatLib, p: string, code: int, q: string)
    requires i + 2 < |lines| && Contains(Strip(lines[i + 1]), "byte[1]")
    requires lines[i + 2] == p + IntToString(code) + q && AllSpace(p) && AllSpace(q)
    ensures ReadValue(TpxClock, lines, i, fl) ==
      if 0 <= code <= 3 then Success(FloatValue(Finite(TpxClockTable[code]))) else Failure(BadTpxClockMode)
  {
    ParseIntRoundTrip(p, code, q);
    ReadIntOf(LineAt(lines, i + 2), lines[i + 2], code);
    assert LineAt(lines, i + 1) == Some(Strip(lines[i + 1]));
  }

  /** With a `byte[1]` marker, a value line that is no integer lets the ValueError escape. */
  lemma TpxClockCodeNotInteger(lines: seq<string>, i: nat, fl: FloatLib)
    requires i + 2 < |lines| && Contains(Strip(lines[i + 1]), "byte[1]")
    requires ParseInt(Strip(lines[i + 2])).None?
    ensures ReadValue(TpxClock, lines, i, fl) == Failure(Unhandled)
  {
    assert LineAt(lines, i + 1) == Some(Strip(lines[i + 1]));
    TpxClockBranch(LineAt(lines, i + 1), LineAt(lines, i + 2), fl);
  }

  /** With a `double[1]` marker (and no `byte[1]`), line `i + 2` is read as MHz directly. */
  lemma TpxClockDouble(lines: seq<string>, i: nat, fl: FloatLib)
    requires i + 2 < |lines|
    requires !Contains(Strip(lines[i + 1]), "byte[1]") && Contains(Strip(lines[i + 1]), "double[1]")
    ensures ReadValue(TpxClock, lines, i, fl) ==
      match fl.parse(Strip(lines[i + 2]))
      case None => Failure(Unhandled)
      case Some(x) => Success(FloatValue(x))
  {
    assert LineAt(lines, i + 1) == Some(Strip(lines[i + 1]));
    TpxClockBranch(LineAt(lines, i + 1), LineAt(lines, i + 2), fl);
  }

  /** The Timepix-clock branch stores what `ReadTpxClock` makes of the marker and value lines. */
  lemma TpxClockBranch(m: Option<string>, v: Option<string>, fl: FloatLib)
    requires v.None? || IsStripped(v.value)
    ensures ReadBranch(TpxClock, m, v, fl) ==
      match ReadTpxClock(m, v, fl) case Failure(e) => Failure(e) case Success(x) => Success(FloatValue(x))
  {
  }

  /** Any other marker on line `i + 1` is `BadTpxClock`, whatever line `i + 2` holds. */
  lemma TpxClockBadMarker(lines: seq<string>, i: nat, fl: FloatLib)
    requires i + 1 < |lines|
    requires !Contains(Strip(lines[i + 1]), "byte[1]") && !Contains(Strip(lines[i + 1]), "double[1]")
    ensures ReadValue(TpxClock, lines, i, fl) == Failure(BadTpxClock)
  {
  }

  // ---------------------------------------------------------------------------
  // Start time
  // ---------------------------------------------------------------------------

  /**
   * A start time `st` is stored with the timestamp of its whole seconds (the
   * part of `str(st)` before the dot) and its six-digit fraction.
   */
  lemma StartTimeReads(lines: seq<string>, i: nat, fl: FloatLib, st: Float, n: int, frac: string, ip: string, sub: string)
    requires i + 2 < |lines| && fl.parse(Strip(lines[i + 2])) == Some(st)
    requires fl.show(st) == IntToString(n) + "." + frac
    requires fl.fixed6(st) == ip + "." + sub
    requires NoSpace(ip) && NoSpace(sub) && '.' !in ip && '.' !in sub
    ensures ReadValue(StartTime, lines, i, fl) == Success(StartValue(StartStamp(st, n, sub)))
    ensures PixelmanTime.TimeString(st, fl) == Some(StartStamp(st, n, sub).Text())
  {
    PixelmanTime.TimeStringOf(st, fl, n, frac, ip, sub);
    var v := LineAt(lines, i + 2);
    assert v == Some(Strip(lines[i + 2]));
    ReadStartOf(v.value, fl, st, n, sub);
    StartBranch(LineAt(lines, i + 1), v, fl);
  }

  /** A parsed start time whose text splits into `n` seconds and `sub` gets the stamp built from them. */
  lemma ReadStartOf(s: string, fl: FloatLib, st: Float, n: int, sub: string)
    requires fl.parse(s) == Some(st) && PixelmanTime.TimeParts(st, fl) == Some((n, sub))
    ensures ReadStart(Some(s), fl) == Success(StartStamp(st, n, sub))
  {
  }

  /** The start-time branch stores what `ReadStart` makes of the value line. */
  lemma StartBranch(m: Option<string>, v: Option<string>, fl: FloatLib)
    requires v.None? || IsStripped(v.value)
    ensures ReadBranch(StartTime, m, v, fl) ==
      match ReadStart(v, fl) case Failure(e) => Failure(e) case Success(st) => Success(StartValue(st))
  {
  }

  /** A start time that does not parse, or a missing value line, is `BadStartTime`. */
  lemma StartTimeRejects(lines: seq<string>, i: nat, fl: FloatLib)
    requires i + 2 >= |lines| || fl.parse(Strip(lines[i + 2])).None?
    ensures ReadValue(StartTime, lines, i, fl) == Failure(BadStartTime)
  {
    StartBranch(LineAt(lines, i + 1), LineAt(lines, i + 2), fl);
  }

  /** A start time of `0.0` gets the timestamp `Thu Jan 01 00:00:00.000000 1970`. */
  lemma StartTimeAtEpoch(lines: seq<string>, i: nat, fl: FloatLib, st: Float)
    requires i + 2 < |lines| && fl.parse(Strip(lines[i + 2])) == Some(st)
    requires fl.show(st) == "0.0" && fl.fixed6(st) == "0.000000"
    ensures ReadValue(StartTime, lines, i, fl).Success?
    ensures ReadValue(StartTime, lines, i, fl).value.stamp.Text() == "Thu Jan 01 00:00:00.000000 1970"
  {
    EpochTexts();
    StartTimeReads(lines, i, fl, st, 0, "0", "0", "000000");
    EpochStampText(st);
  }

  lemma EpochStampText(st: Float)
    ensures StartStamp(st, 0, "000000").Text() == "Thu Jan 01 00:00:00.000000 1970"
  {
    PixelmanTime.FormatEpoch("000000");
    EpochLiteral();
  }

  lemma EpochLiteral()
    ensures "Thu Jan 01 00:00:00." + "000000" + " 1970" == "Thu Jan 01 00:00:00.000000 1970"
  {
  }

  /** `"0.0"` is `str(0)` and a one-digit fraction; `"0.000000"` splits at its dot. */
  lemma EpochTexts()
    ensures "0.0" == IntToString(0) + "." + "0"
    ensures "0.000000" == "0" + "." + "000000"
  {
    assert IntToString(0) == "0";
  }

  // ---------------------------------------------------------------------------
  // File names and ordering
  // ---------------------------------------------------------------------------

  /** The data file is the DSC file's name without its four-character extension. */
  lemma DataFilenameDropsExtension(base: string, ext: string)
    requires |ext| == 4
    ensures DataFilename(base + ext) == base
  {
    assert (base + ext)[..|base|] == base;
  }

  /**
   * `a < b` orders records by start time: it is a strict order, records
   * without a start time come first, and any two records whose start times are
   * not NaN are comparable.
   */
  lemma StartsBeforeIsStrictOrder(a: DscRecord, b: DscRecord, c: DscRecord)
    ensures !StartsBefore(a, a)
    ensures StartsBefore(a, b) ==> !StartsBefore(b, a)
    ensures StartsBefore(a, b) && StartsBefore(b, c) ==> StartsBefore(a, c)
    ensures StartSeconds(a).None? && StartSeconds(b).Some? ==> StartsBefore(a, b)
    ensures (StartSeconds(a).None? || !StartSeconds(a).value.NaN?) && (StartSeconds(b).None? || !StartSeconds(b).value.NaN?) ==>
      StartsBefore(a, b) || StartsBefore(b, a) || StartSeconds(a) == StartSeconds(b)
  {
    if StartSeconds(a).Some? && StartSeconds(b).Some? {
      LessIsStrictOrder(StartSeconds(a).value, StartSeconds(b).value, if StartSeconds(c).Some? then StartSeconds(c).value else NaN);
    } else if StartSeconds(a).Some? {
      LessIsStrictOrder(StartSeconds(a).value, StartSeconds(a).value, StartSeconds(a).value);
    }
  }
}
