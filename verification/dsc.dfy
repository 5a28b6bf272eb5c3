/**
 * The Pixelman DSC reader (`DscFile` in dscreader.py): the frame size from the
 * third line of the file, then one forward pass over all lines in which the first
 * label found on line `i` decides how line `i + 2` is read into the record.
 * The file's lines are the input; parsing and printing of floats come in as a
 * `FloatLib`. The first error aborts the whole read.
 */
module Dsc {
  import opened Wrappers
  import opened Text
  import opened Chipboard
  import opened Floats
  import opened Calendar
  import PixelmanTime

  /** Frame width and height must lie in [MinSize, MaxSize] pixels. */
  const MinSize := 256
  const MaxSize := 1024

  /** `TPX_CLOCK_VALS`: the Timepix clock in MHz for each `byte[1]` clock code. */
  const TpxClockTable: seq<real> := [10.0, 20.0, 40.0, 80.0]

  /**
   * Why a read fails: one case per message the reader raises, and `Unhandled`
   * for a Python exception it lets escape (a missing line, a token that is no
   * integer where nothing catches the ValueError, too few DAC values, ...).
   */
  datatype DscError =
    | BadWidth
    | BadHeight
    | BadAcqMode
    | BadAcqTime
    | BadHvValue
    | BadHwTimerMode
    | BadMpxClock
    | BadMpxType
    | BadPolarity
    | BadStartTime
    | BadTpxClockMode
    | BadTpxClock
    | InvalidChipId
    | Unhandled

  /** The labelled fields, in the order the reader tests their labels. */
  datatype Field =
    | AcqMode
    | AcqTime
    | ChipId
    | Dacs
    | Firmware
    | BiasVoltage
    | HwTimer
    | Interface
    | MpxClock
    | MpxType
    | PixelmanVersion
    | Polarity
    | StartTime
    | TpxClock
    | NameAndSN

  /** The fields in the order of the `if`/`elif` chain. */
  const Chain: seq<Field> := [AcqMode, AcqTime, ChipId, Dacs, Firmware, BiasVoltage, HwTimer,
    Interface, MpxClock, MpxType, PixelmanVersion, Polarity, StartTime, TpxClock, NameAndSN]

  /** Position of a field's test in the chain. */
  function Rank(f: Field): (k: nat)
    ensures k < |Chain| && Chain[k] == f
  {
    match f
    case AcqMode => 0
    case AcqTime => 1
    case ChipId => 2
    case Dacs => 3
    case Firmware => 4
    case BiasVoltage => 5
    case HwTimer => 6
    case Interface => 7
    case MpxClock => 8
    case MpxType => 9
    case PixelmanVersion => 10
    case Polarity => 11
    case StartTime => 12
    case TpxClock => 13
    case NameAndSN => 14
  }

  /** Each field occurs in the chain once, at its rank. */
  lemma ChainRanks()
    ensures forall k :: 0 <= k < |Chain| ==> Rank(Chain[k]) == k
  {
  }

  /** The label text that announces each field. */
  function Label(f: Field): string {
    match f
    case AcqMode => "\"Acq mode\" (\"Acquisition mode\"):"
    case AcqTime => "\"Acq time\" (\"Acquisition time [s]\"):"
    case ChipId => "\"ChipboardID\" (\"Medipix or chipboard ID\"):"
    case Dacs => "\"DACs\" (\"DACs values of all chips\"):"
    case Firmware => "\"Firmware\" (\"Firmware version\"):"
    case BiasVoltage => "\"HV\" (\"Bias voltage [V]\"):"
    case HwTimer => "\"Hw timer\" (\"Hw timer mode\"):"
    case Interface => "\"Interface\" (\"Medipix interface\"):"
    case MpxClock => "\"Mpx clock\" (\"Medipix clock [MHz]\"):"
    case MpxType => "\"Mpx type\" (\"Medipix type (1-2.1, 2-MXR, 3-TPX)\"):"
    case PixelmanVersion => "\"Pixelman version\" (\"Pixelman version\"):"
    case Polarity => "\"Polarity\" (\"Detector polarity (0 negative, 1 positive)\"):"
    case StartTime => "\"Start time\" (\"Acquisition start time\"):"
    case TpxClock => "Timepix clock"
    case NameAndSN => "\"Name+SN\" (\"Name and serial number\"):"
  }

  /** The bias-voltage and Timepix-clock labels are looked for ignoring ASCII case. */
  predicate IgnoresCase(f: Field) {
    f == BiasVoltage || f == TpxClock
  }

  /** Line `line` carries the label of `f`. */
  predicate Matches(f: Field, line: string) {
    if IgnoresCase(f) then Contains(Lower(line), Lower(Label(f))) else Contains(line, Label(f))
  }

  /** The index of the first field of `chain` for which `hit` holds. */
  function FirstMatch(chain: seq<Field>, hit: Field -> bool): (r: Option<nat>)
    ensures r.Some? ==> r.value < |chain| && hit(chain[r.value])
    ensures r.Some? ==> forall j :: 0 <= j < r.value ==> !hit(chain[j])
    ensures r.None? ==> forall j :: 0 <= j < |chain| ==> !hit(chain[j])
  {
    if |chain| == 0 then None
    else if hit(chain[0]) then Some(0)
    else
      assert forall j :: 1 <= j < |chain| ==> chain[j] == chain[1..][j - 1];
      match FirstMatch(chain[1..], hit)
      case None => None
      case Some(k) => Some(k + 1)
  }

  /**
   * The branch of the `elif` chain a line takes: the first field in chain order
   * whose label it carries, or none.
   */
  function LabelOf(line: string): (r: Option<Field>)
    ensures r.Some? ==> Matches(r.value, line) && forall g :: Rank(g) < Rank(r.value) ==> !Matches(g, line)
    ensures r.None? <==> forall g :: !Matches(g, line)
  {
    LabelOfComplete(line);
    match FirstMatch(Chain, f => Matches(f, line))
    case None => None
    case Some(k) => Some(Chain[k])
  }

  /** Every field is looked for: no hit in the chain means no label at all. */
  lemma LabelOfComplete(line: string)
    ensures forall k :: 0 <= k < |Chain| ==> Rank(Chain[k]) == k
    ensures FirstMatch(Chain, f => Matches(f, line)).None? ==> forall g :: !Matches(g, line)
  {
    ChainRanks();
    var hit := f => Matches(f, line);
    if FirstMatch(Chain, hit).None? {
      ChainCovers(hit);
      assert forall g :: hit(g) == Matches(g, line);
    }
  }

  /** The chain lists every field, so a search of it that finds nothing rules out every field. */
  lemma ChainCovers(hit: Field -> bool)
    requires FirstMatch(Chain, hit).None?
    ensures forall g :: !hit(g)
  {
    forall g
      ensures !hit(g)
    {
      assert Chain[Rank(g)] == g;
    }
  }

  /** The DAC settings: all values of the line, and the first fourteen by name. */
  datatype DacBlock = DacBlock(
    values: seq<int>,
    ikrum: int, disc: int, preamp: int, buffAnalogA: int, buffAnalogB: int, hist: int, thl: int,
    thlCoarse: int, vcas: int, fbk: int, gnd: int, ths: int, biasLvds: int, refLvds: int)

  /**
   * The start time: seconds since the epoch, and the whole seconds and
   * sub-second digits its Pixelman timestamp string is made of.
   */
  datatype StartStamp = StartStamp(seconds: Float, wholeSeconds: int, fraction: string)
  {
    /** The start-time string: `"%a %b %d %H:%M:%S."`, the fraction, `" %Y"`, in UTC. */
    function Text(): string {
      PixelmanTime.Format(Gmtime(wholeSeconds), fraction)
    }
  }

  /**
   * Everything a read yields: the two file names, the frame size, and the value
   * of each labelled field found. A field whose label never occurs has no entry,
   * which is what its getter reports as `None`.
   */
  datatype DscRecord = DscRecord(
    dscFilename: string,
    dataFilename: string,
    frameWidth: int,
    frameHeight: int,
    fields: map<Field, Value>)

  /** The value read for one field. */
  datatype Value =
    | IntValue(i: int)
    | FloatValue(x: Float)
    | TextValue(s: string)
    | DacValue(d: DacBlock)
    | StartValue(stamp: StartStamp)

  /** The kind of value each field stores. */
  predicate Fits(f: Field, v: Value) {
    match f
    case AcqMode | HwTimer | MpxType | Polarity => v.IntValue?
    case AcqTime | BiasVoltage | MpxClock | TpxClock => v.FloatValue?
    case ChipId | Firmware | Interface | PixelmanVersion | NameAndSN => v.TextValue?
    case Dacs => v.DacValue?
    case StartTime => v.StartValue?
  }

  /** The value a record holds for a field: the field's getter. */
  function Get(r: DscRecord, f: Field): Option<Value> {
    if f in r.fields then Some(r.fields[f]) else None
  }

  /** The file names and the frame size: fixed before the scan starts. */
  predicate SameHeader(a: DscRecord, b: DscRecord) {
    a.dscFilename == b.dscFilename && a.dataFilename == b.dataFilename
    && a.frameWidth == b.frameWidth && a.frameHeight == b.frameHeight
  }

  /** Store `v` as the value of `f`: that field changes and nothing else does. */
  function Set(rec: DscRecord, f: Field, v: Value): (r: DscRecord)
    requires Fits(f, v)
    ensures Get(r, f) == Some(v)
    ensures forall g :: g != f ==> Get(r, g) == Get(rec, g)
    ensures SameHeader(r, rec)
  {
    rec.(fields := rec.fields[f := v])
  }

  /** `dscfilename[:-4]`: the name without its last four characters (empty if shorter). */
  function DataFilename(name: string): (r: string)
    ensures IsPrefix(r, name)
    ensures |r| == if |name| >= 4 then |name| - 4 else 0
  {
    if |name| >= 4 then name[..|name| - 4] else ""
  }

  /** The record as the constructor leaves it before the scan: every labelled field `None`. */
  function Initial(name: string, width: int, height: int): (r: DscRecord)
    ensures forall f :: Get(r, f).None?
    ensures r.dscFilename == name && r.dataFilename == DataFilename(name)
    ensures r.frameWidth == width && r.frameHeight == height
  {
    DscRecord(name, DataFilename(name), width, height, map[])
  }

  /** `int(token.split("=")[1])`: the number after the first `=`; any failure escapes. */
  function SizeValue(token: string): (r: Result<int, DscError>)
    ensures r.Failure? ==> r.error == Unhandled
  {
    var parts := Split(token, '=');
    if |parts| < 2 then Failure(Unhandled)
    else ParseInt(parts[1]).ToResult(Unhandled)
  }

  predicate InSizeRange(n: int) {
    MinSize <= n <= MaxSize
  }

  /**
   * Width and height from tokens 2 and 3 of line 2, split on single spaces after
   * stripping. The width is read and range-checked before the height is looked at.
   */
  function ReadDimensions(lines: seq<string>): (r: Result<(int, int), DscError>)
    ensures r.Success? ==> InSizeRange(r.value.0) && InSizeRange(r.value.1)
  {
    if |lines| < 3 then Failure(Unhandled)
    else
      var tokens := Split(Strip(lines[2]), ' ');
      if |tokens| < 3 then Failure(Unhandled)
      else
        var width :- SizeValue(tokens[2]);
        if !InSizeRange(width) then Failure(BadWidth)
        else if |tokens| < 4 then Failure(Unhandled)
        else
          var height :- SizeValue(tokens[3]);
          if !InSizeRange(height) then Failure(BadHeight)
          else Success((width, height))
  }

  /** `ls[j].strip()`; `None` where the line does not exist. */
  function LineAt(lines: seq<string>, j: nat): Option<string> {
    if j < |lines| then Some(Strip(lines[j])) else None
  }

  /** `int(ls[i+2].strip())` with the ValueError turned into `err`; a missing line escapes. */
  function ReadInt(v: Option<string>, err: DscError): Result<int, DscError> {
    var s :- v.ToResult(Unhandled);
    ParseInt(s).ToResult(err)
  }

  /** `float(ls[i+2].strip())` with the ValueError turned into `err`; a missing line escapes. */
  function ReadFloat(v: Option<string>, fl: FloatLib, err: DscError): Result<Float, DscError> {
    var s :- v.ToResult(Unhandled);
    fl.parse(s).ToResult(err)
  }

  /** Every token an integer: the list comprehension `[int(x) for x in tokens]`. */
  function ParseAll(tokens: seq<string>): Option<seq<int>>
  {
    if |tokens| == 0 then Some([])
    else
      match (ParseInt(tokens[0]), ParseAll(tokens[1..]))
      case (Some(n), Some(ns)) => Some([n] + ns)
      case _ => None
  }

  /** The comprehension succeeds exactly when every token is an integer, and keeps them in order. */
  lemma {:induction false} ParseAllIff(tokens: seq<string>)
    ensures ParseAll(tokens).Some? <==> forall k :: 0 <= k < |tokens| ==> ParseInt(tokens[k]).Some?
    ensures ParseAll(tokens).Some? ==>
      (|ParseAll(tokens).value| == |tokens| &&
       forall k :: 0 <= k < |tokens| ==> ParseInt(tokens[k]) == Some(ParseAll(tokens).value[k]))
  {
    if |tokens| > 0 {
      ParseAllIff(tokens[1..]);
      assert forall k :: 1 <= k < |tokens| ==> tokens[k] == tokens[1..][k - 1];
    }
  }

  /** The fourteen named DACs are the first fourteen values. */
  predicate ValidDacBlock(d: DacBlock) {
    |d.values| >= 14
    && d.ikrum == d.values[0] && d.disc == d.values[1] && d.preamp == d.values[2]
    && d.buffAnalogA == d.values[3] && d.buffAnalogB == d.values[4] && d.hist == d.values[5]
    && d.thl == d.values[6] && d.thlCoarse == d.values[7] && d.vcas == d.values[8]
    && d.fbk == d.values[9] && d.gnd == d.values[10] && d.ths == d.values[11]
    && d.biasLvds == d.values[12] && d.refLvds == d.values[13]
  }

  /** The block for a DAC line's values, the first fourteen under their names. */
  function DacBlockOf(vs: seq<int>): (d: DacBlock)
    requires |vs| >= 14
    ensures ValidDacBlock(d) && d.values == vs
  {
    DacBlock(vs, vs[0], vs[1], vs[2], vs[3], vs[4], vs[5], vs[6],
      vs[7], vs[8], vs[9], vs[10], vs[11], vs[12], vs[13])
  }

  /** The DAC line: space-separated integers, at least fourteen of them. */
  function ParseDacs(s: string): (r: Option<DacBlock>)
    ensures r.Some? ==> ValidDacBlock(r.value)
  {
    var vs :- ParseAll(Split(s, ' '));
    if |vs| < 14 then None else Some(DacBlockOf(vs))
  }

  /** The bias-voltage check `hv < 0.0 or hv > 100.0` failing, with IEEE comparisons. */
  predicate BiasInRange(hv: Float) {
    !(Less(hv, Finite(0.0)) || Less(Finite(100.0), hv))
  }

  /**
   * The Timepix clock: the marker `m` (line `i + 1`) chooses between a clock
   * code on `v` (line `i + 2`) looked up in the table (`byte[1]`) and a value
   * in MHz (`double[1]`).
   */
  function ReadTpxClock(m: Option<string>, v: Option<string>, fl: FloatLib): Result<Float, DscError> {
    var marker :- m.ToResult(Unhandled);
    if Contains(marker, "byte[1]") then
      var code :- ReadInt(v, Unhandled);
      if 0 <= code < |TpxClockTable| then Success(Finite(TpxClockTable[code]))
      else Failure(BadTpxClockMode)
    else if Contains(marker, "double[1]") then
      ReadFloat(v, fl, Unhandled)
    else Failure(BadTpxClock)
  }

  /**
   * The start time: any failure to get a float from line `i + 2`, a missing line
   * included, is `BadStartTime`; the timestamp string is built outside that guard.
   */
  function ReadStart(v: Option<string>, fl: FloatLib): Result<StartStamp, DscError> {
    var s :- v.ToResult(BadStartTime);
    var st :- fl.parse(s).ToResult(BadStartTime);
    var parts :- PixelmanTime.TimeParts(st, fl).ToResult(Unhandled);
    Success(StartStamp(st, parts.0, parts.1))
  }

  /**
   * The branch of the chain for field `f`, given the line after the label
   * (`marker`, read by the Timepix-clock branch only) and the value line `v`,
   * both already stripped. A value is stored only once it has passed the branch's checks.
   */
  function ReadBranch(f: Field, marker: Option<string>, v: Option<string>, fl: FloatLib): (r: Result<Value, DscError>)
    requires v.None? || IsStripped(v.value)
    ensures r.Success? ==> ValueValid(f, r.value)
  {
    match f
    case AcqMode =>
      var n :- ReadInt(v, BadAcqMode);
      Success(IntValue(n))
    case AcqTime =>
      var x :- ReadFloat(v, fl, BadAcqTime);
      Success(FloatValue(x))
    case ChipId =>
      var s :- v.ToResult(Unhandled);
      if IsChipIdValid(s) then Success(TextValue(s)) else Failure(InvalidChipId)
    case Dacs =>
      var s :- v.ToResult(Unhandled);
      var d :- ParseDacs(s).ToResult(Unhandled);
      Success(DacValue(d))
    case Firmware =>
      var s :- v.ToResult(Unhandled);
      Success(TextValue(s))
    case BiasVoltage =>
      var hv :- ReadFloat(v, fl, BadHvValue);
      if BiasInRange(hv) then Success(FloatValue(hv)) else Failure(BadHvValue)
    case HwTimer =>
      var n :- ReadInt(v, BadHwTimerMode);
      Success(IntValue(n))
    case Interface =>
      var s :- v.ToResult(Unhandled);
      Success(TextValue(s))
    case MpxClock =>
      var x :- ReadFloat(v, fl, BadMpxClock);
      Success(FloatValue(x))
    case MpxType =>
      var n :- ReadInt(v, BadMpxType);
      if n in {1, 2, 3} then Success(IntValue(n)) else Failure(BadMpxType)
    case PixelmanVersion =>
      var s :- v.ToResult(Unhandled);
      Success(TextValue(s))
    case Polarity =>
      var n :- ReadInt(v, BadPolarity);
      if n in {0, 1} then Success(IntValue(n)) else Failure(BadPolarity)
    case StartTime =>
      var stamp :- ReadStart(v, fl);
      Success(StartValue(stamp))
    case TpxClock =>
      var x :- ReadTpxClock(marker, v, fl);
      Success(FloatValue(x))
    case NameAndSN =>
      var s :- v.ToResult(Unhandled);
      Success(TextValue(s))
  }

  /** The branch of the chain for field `f`, taken on line `i`: it sees lines `i + 1` and `i + 2` only. */
  function ReadValue(f: Field, lines: seq<string>, i: nat, fl: FloatLib): Result<Value, DscError>
  {
    ReadBranch(f, LineAt(lines, i + 1), LineAt(lines, i + 2), fl)
  }

  /** What the reader checks about a value before it stores it for field `f`. */
  predicate ValueValid(f: Field, v: Value) {
    Fits(f, v) &&
    match f
    case ChipId => IsChipIdValid(v.s) && IsStripped(v.s)
    case Firmware | Interface | PixelmanVersion | NameAndSN => IsStripped(v.s)
    case Dacs => ValidDacBlock(v.d)
    case BiasVoltage => BiasInRange(v.x)
    case MpxType => v.i in {1, 2, 3}
    case Polarity => v.i in {0, 1}
    case _ => true
  }

  /** Every labelled field the record holds passed the reader's checks. */
  predicate FieldsValid(r: DscRecord) {
    forall f :: f in r.fields ==> ValueValid(f, r.fields[f])
  }

  /** A record a successful read can return. */
  predicate WellFormed(r: DscRecord) {
    InSizeRange(r.frameWidth) && InSizeRange(r.frameHeight)
    && r.dataFilename == DataFilename(r.dscFilename)
    && FieldsValid(r)
  }

  /**
   * The outcome of the branch of field `f` taken on line `j`. The scan is
   * written for any such reader; `BranchReader` is the reader's own.
   */
  type Reader = (Field, nat) -> Result<Value, DscError>

  /** The branch a line takes, if any; `LabelOf` is the reader's own. */
  type Labeller = string -> Option<Field>

  /** A reader that only ever yields values passing its field's checks. */
  ghost predicate Checked(read: Reader) {
    forall f, j :: read(f, j).Success? ==> ValueValid(f, read(f, j).value)
  }

  /** The branches of the `elif` chain over the lines of one file. */
  function BranchReader(lines: seq<string>, fl: FloatLib): (read: Reader)
    ensures Checked(read)
  {
    (f: Field, j: nat) => ReadValue(f, lines, j, fl)
  }

  /** One iteration of the scan: line `i` fires at most one branch. */
  function Step(lines: seq<string>, i: nat, rec: DscRecord, labeller: Labeller, read: Reader): (r: Result<DscRecord, DscError>)
    requires i < |lines| && Checked(read)
    ensures r.Success? ==> SameHeader(r.value, rec)
    ensures r.Success? && FieldsValid(rec) ==> FieldsValid(r.value)
  {
    match labeller(lines[i])
    case None => Success(rec)
    case Some(f) =>
      var v :- read(f, i);
      Success(Set(rec, f, v))
  }

  /** The scan from line `i` on: stops at the first failing line, keeps the header, keeps `FieldsValid`. */
  function Scan(lines: seq<string>, i: nat, rec: DscRecord, labeller: Labeller, read: Reader): (r: Result<DscRecord, DscError>)
    requires i <= |lines| && Checked(read)
    ensures r.Success? ==> SameHeader(r.value, rec)
    ensures r.Success? && FieldsValid(rec) ==> FieldsValid(r.value)
    decreases |lines| - i
  {
    if i == |lines| then Success(rec)
    else
      var next :- Step(lines, i, rec, labeller, read);
      Scan(lines, i + 1, next, labeller, read)
  }

  /**
   * `DscFile(name)` on a file whose lines are `lines`: the frame size first,
   * then the label scan over every line.
   */
  function Parse(name: string, lines: seq<string>, fl: FloatLib): (r: Result<DscRecord, DscError>)
    ensures r.Success? ==> WellFormed(r.value) && r.value.dscFilename == name
    ensures r.Success? ==> ReadDimensions(lines) == Success((r.value.frameWidth, r.value.frameHeight))
    ensures ReadDimensions(lines).Failure? ==> r == Failure(ReadDimensions(lines).error)
  {
    var dims :- ReadDimensions(lines);
    Scan(lines, 0, Initial(name, dims.0, dims.1), LabelOf, BranchReader(lines, fl))
  }

  /** The start time a record is ordered by: `getStartTime()`. */
  function StartSeconds(r: DscRecord): Option<Float> {
    if StartTime in r.fields && r.fields[StartTime].StartValue? then Some(r.fields[StartTime].stamp.seconds) else None
  }

  /**
   * `a < b`: start times compared with Python 2's rules, where `None` is below
   * every number and comparisons with NaN are false.
   */
  predicate StartsBefore(a: DscRecord, b: DscRecord) {
    match (StartSeconds(a), StartSeconds(b))
    case (None, None) => false
    case (None, Some(_)) => true
    case (Some(_), None) => false
    case (Some(x), Some(y)) => Less(x, y)
  }
}
