/** The pure part of `OscilloscopeController.capture_waveform`: the commands it
    sends, the parsing of the two metadata replies, the stripping of the
    data-block framing and the calibration of samples into a signal and a
    time axis. Instrument replies are inputs; the commands are a trace. */
module Scope {
  import opened Wrappers
  import opened Exceptions
  import Text
  import Numbers

  /** One raw byte of the data reply, read as an unsigned 8-bit sample. */
  newtype byte = x: int | 0 <= x < 256

  /** One exchange on the instrument link, in the order it is issued. */
  datatype Command =
    | Query(text: string)   // a write followed by a read of the text reply
    | Write(text: string)
    | ReadRaw               // a binary read of the data reply

  const PreambleQuery := ":WAV:PRE?"
  const SampleRateQuery := ":ACQ:SRAT?"
  const NormalMode := ":WAV:MODE NORM"
  const DataRequest := "WAV:DATA?"

  function SelectSource(channel: string): string {
    ":WAV:SOUR " + channel
  }

  /** The framing the capture strips without reading it. A definite-length
      arbitrary block of IEEE 488.2 (section 8.7.9) opens with `#`, one digit
      `n` from 1 to 9 and `n` length digits. The code assumes the `#9` form
      this instrument sends and drops 11 bytes unread, whatever the block
      says; the reply ends with one terminator byte. */
  const HeaderLength := 11
  const TrailerLength := 1

  /** The per-capture metadata record, field names as in the source. */
  datatype Preamble = Preamble(
    format: int, waveType: int, points: int, count: int,
    sampleRate: real,
    xIncrement: real, xOrigin: real, xReference: real,
    yIncrement: real, yOrigin: real, yReference: real)

  /** What the instrument answers during one capture. */
  datatype Replies = Replies(preamble: string, sampleRate: string, raw: seq<byte>)

  /** A calibrated capture: amplitudes, their time stamps, and the metadata. */
  datatype Waveform = Waveform(signal: seq<real>, t: seq<real>, preamble: Preamble)

  /** The commands a capture issued and what it returned or raised. */
  datatype Capture = Capture(trace: seq<Command>, result: Result<Waveform, Exception>)

  /** The two metadata queries, issued before anything else. */
  const MetadataQueries: seq<Command> := [Query(PreambleQuery), Query(SampleRateQuery)]

  /** Every command of a capture that gets as far as reading the data. */
  function CaptureCommands(channel: string): seq<Command> {
    MetadataQueries + [Write(SelectSource(channel)), Write(NormalMode), Write(DataRequest), ReadRaw]
  }

  /** `int(text)` or `float(text)`: the parser's value, or `ValueError`. */
  function Convert<T>(text: string, parse: string -> Option<T>): Result<T, Exception> {
    match parse(text)
    case Some(v) => Success(v)
    case None => Failure(ValueError(text))
  }

  /** Every field at a position in `lo..hi-1` exists and parses. */
  ghost predicate AllParse<T>(fields: seq<string>, lo: nat, hi: nat, parse: string -> Option<T>) {
    hi <= lo || (hi <= |fields| && forall k :: lo <= k < hi ==> parse(fields[k]).Some?)
  }

  /** Reading fields from `lo` onward, position `j` is the first that fails:
      all before it exist and parse, and `j` is missing or does not parse. */
  ghost predicate FailsFirstAt<T>(fields: seq<string>, lo: nat, j: nat, parse: string -> Option<T>) {
    lo <= j && AllParse(fields, lo, j, parse) && (j < |fields| ==> parse(fields[j]).None?)
  }

  /** A field that exists and parses moves the start of the search back by
      one without changing which position fails first. */
  lemma FailsFirstAtStep<T>(fields: seq<string>, lo: nat, parse: string -> Option<T>)
    requires lo < |fields| && parse(fields[lo]).Some?
    ensures forall j: nat :: FailsFirstAt(fields, lo + 1, j, parse) ==> FailsFirstAt(fields, lo, j, parse)
  {
  }

  /** What reading a failing position raises: `IndexError` past the end of the
      list, otherwise the `ValueError` of the conversion, carrying the text. */
  function FieldError(fields: seq<string>, j: nat): Exception {
    if j < |fields| then ValueError(fields[j]) else IndexError
  }

  /** The conversions `parse(fields[k])` for `k` in `lo..hi-1`, evaluated left
      to right as the entries of a dictionary display are: the first missing
      field raises `IndexError`, the first malformed one `ValueError`. */
  function Fields<T>(fields: seq<string>, lo: nat, hi: nat, parse: string -> Option<T>): (r: Result<seq<T>, Exception>)
    requires lo < hi
    ensures r.Success? <==> hi <= |fields| && forall k :: lo <= k < hi ==> parse(fields[k]).Some?
    ensures r.Success? ==> |r.value| == hi - lo
    ensures r.Success? ==> forall i :: 0 <= i < |r.value| ==> r.value[i] == parse(fields[lo + i]).value
    // The next two are corollaries of the first-failure clause after them.
    ensures r.Failure? ==> r.error == IndexError || r.error.ValueError?
    ensures r == Failure(IndexError) ==> |fields| < hi
    ensures r.Failure? ==> exists j: nat :: j < hi && FailsFirstAt(fields, lo, j, parse) && r.error == FieldError(fields, j)
    decreases hi - lo
  {
    if lo >= |fields| then
      assert FailsFirstAt(fields, lo, lo, parse);
      Failure(IndexError)
    else
      assert parse(fields[lo]).None? ==> FailsFirstAt(fields, lo, lo, parse);
      var v :- Convert(fields[lo], parse);
      if lo + 1 == hi then Success([v])
      else
        FailsFirstAtStep(fields, lo, parse);
        var rest :- Fields(fields, lo + 1, hi, parse);
        Success([v] + rest)
  }

  /** Reading fields `lo..hi` looks at nothing beyond field `hi - 1`. */
  lemma {:induction false} FieldsExtended<T>(fields: seq<string>, more: seq<string>, lo: nat, hi: nat,
                                              parse: string -> Option<T>)
    requires lo < hi <= |fields|
    ensures Fields(fields + more, lo, hi, parse) == Fields(fields, lo, hi, parse)
    decreases hi - lo
  {
    assert (fields + more)[lo] == fields[lo];
    if lo + 1 < hi {
      FieldsExtended(fields, more, lo + 1, hi, parse);
    }
  }

  /** The preamble dictionary, built in the order the source lists its
      entries, so the first failing entry decides the exception: fields 0-3 of
      the preamble reply as integers, the first field of the sample-rate reply,
      then fields 4-9 as reals. Fields beyond these are ignored. */
  function ParsePreamble(preambleReply: string, rateReply: string): (r: Result<Preamble, Exception>)
    ensures var pre := Text.Split(preambleReply, ',');
      var fs := Text.Split(rateReply, ',')[0];
      r.Success? <==>
        && |pre| >= 10
        && (forall k :: 0 <= k < 4 ==> Numbers.ParseInt(pre[k]).Some?)
        && Numbers.ParseReal(fs).Some?
        && (forall k :: 4 <= k < 10 ==> Numbers.ParseReal(pre[k]).Some?)
    ensures var pre := Text.Split(preambleReply, ',');
      var fs := Text.Split(rateReply, ',')[0];
      r.Success? ==>
        && r.value.format == Numbers.ParseInt(pre[0]).value
        && r.value.waveType == Numbers.ParseInt(pre[1]).value
        && r.value.points == Numbers.ParseInt(pre[2]).value
        && r.value.count == Numbers.ParseInt(pre[3]).value
        && r.value.sampleRate == Numbers.ParseReal(fs).value
        && r.value.xIncrement == Numbers.ParseReal(pre[4]).value
        && r.value.xOrigin == Numbers.ParseReal(pre[5]).value
        && r.value.xReference == Numbers.ParseReal(pre[6]).value
        && r.value.yIncrement == Numbers.ParseReal(pre[7]).value
        && r.value.yOrigin == Numbers.ParseReal(pre[8]).value
        && r.value.yReference == Numbers.ParseReal(pre[9]).value
    ensures r.Failure? ==> r.error == IndexError || r.error.ValueError?
    ensures r == Failure(IndexError) ==> |Text.Split(preambleReply, ',')| < 10
    ensures var pre := Text.Split(preambleReply, ',');
      var fs := Text.Split(rateReply, ',')[0];
      r.Failure? ==>
        || (exists j: nat :: j < 4 && FailsFirstAt(pre, 0, j, Numbers.ParseInt) && r.error == FieldError(pre, j))
        || (AllParse(pre, 0, 4, Numbers.ParseInt) && Numbers.ParseReal(fs).None? && r.error == ValueError(fs))
        || (&& AllParse(pre, 0, 4, Numbers.ParseInt) && Numbers.ParseReal(fs).Some?
            && exists j: nat :: 4 <= j < 10 && FailsFirstAt(pre, 4, j, Numbers.ParseReal) && r.error == FieldError(pre, j))
  {
    var pre := Text.Split(preambleReply, ',');
    var rate := Text.Split(rateReply, ',');
    var ints :- Fields(pre, 0, 4, Numbers.ParseInt);
    var sampleRate :- Convert(rate[0], Numbers.ParseReal);
    var reals :- Fields(pre, 4, 10, Numbers.ParseReal);
    Success(Preamble(ints[0], ints[1], ints[2], ints[3], sampleRate,
                     reals[0], reals[1], reals[2], reals[3], reals[4], reals[5]))
  }

  /** The samples of a data reply: `raw[11:-1]`. */
  function Payload(raw: seq<byte>): (data: seq<byte>)
    ensures |data| == if |raw| >= HeaderLength + TrailerLength then |raw| - HeaderLength - TrailerLength else 0
    ensures forall i :: 0 <= i < |data| ==> data[i] == raw[HeaderLength + i]
  {
    Text.Slice(raw, HeaderLength, -TrailerLength)
  }

  /** The amplitude map applied to every sample. */
  function Calibrate(data: seq<byte>, p: Preamble): seq<real> {
    seq(|data|, i requires 0 <= i < |data| => (data[i] as int as real - p.yOrigin - p.yReference) * p.yIncrement)
  }

  /** The sample value a calibrated amplitude came from, when the increment is
      not zero. */
  function Uncalibrate(signal: seq<real>, p: Preamble): seq<real>
    requires p.yIncrement != 0.0
  {
    seq(|signal|, i requires 0 <= i < |signal| => signal[i] / p.yIncrement + p.yOrigin + p.yReference)
  }

  /** Calibration loses nothing: with a non-zero increment every raw sample
      can be recovered from its amplitude. */
  lemma CalibrateInvertible(data: seq<byte>, p: Preamble)
    requires p.yIncrement != 0.0
    ensures |Uncalibrate(Calibrate(data, p), p)| == |data|
    ensures forall i :: 0 <= i < |data| ==> Uncalibrate(Calibrate(data, p), p)[i] == data[i] as int as real
  {
    var signal := Calibrate(data, p);
    forall i | 0 <= i < |data|
      ensures Uncalibrate(signal, p)[i] == data[i] as int as real
    {
      var d := data[i] as int as real - p.yOrigin - p.yReference;
      assert signal[i] == d * p.yIncrement;
      assert signal[i] / p.yIncrement == d;
    }
  }

  /** `x` rounded up to an integer. */
  function Ceil(x: real): (c: int)
    ensures c as real >= x && (c - 1) as real < x
  {
    -((-x).Floor)
  }

  /** `np.arange(start, stop, step)` over the reals: `ceil((stop - start) / step)`
      values (none if that is not positive) spaced by `step`; a zero step
      raises. */
  function Arange(start: real, stop: real, step: real): Result<seq<real>, Exception> {
    if step == 0.0 then Failure(ZeroDivisionError)
    else
      var n := Ceil((stop - start) / step);
      var len := if n > 0 then n else 0;
      Success(seq(len, i => start + i as real * step))
  }

  /** The time axis of `n` samples, `np.arange(0, n * dx, dx)`. */
  function TimeAxis(n: nat, dx: real): Result<seq<real>, Exception> {
    Arange(0.0, n as real * dx, dx)
  }

  /** Over the reals the range has exactly one time stamp per sample, the
      `i`-th being `i * dx`, whatever the sign of a non-zero step. */
  lemma TimeAxisExact(n: nat, dx: real)
    requires dx != 0.0
    ensures TimeAxis(n, dx).Success?
    ensures |TimeAxis(n, dx).value| == n
    ensures forall i :: 0 <= i < n ==> TimeAxis(n, dx).value[i] == i as real * dx
  {
    assert (n as real * dx - 0.0) / dx == n as real;
    assert Ceil(n as real) == n;
  }

  /** The number of samples a data reply of `len` bytes carries once its
      framing is stripped. */
  function SampleCount(len: nat): nat {
    if len >= HeaderLength + TrailerLength then len - HeaderLength - TrailerLength else 0
  }

  /** The calibrated signal and time axis of a data reply, for a preamble
      whose time increment is not zero. */
  function Reconstruct(raw: seq<byte>, p: Preamble): (w: Waveform)
    requires p.xIncrement != 0.0
    ensures w.preamble == p
    ensures |w.signal| == SampleCount(|raw|) && |w.t| == SampleCount(|raw|)
    ensures forall i :: 0 <= i < |w.signal| ==>
      w.signal[i] == (raw[HeaderLength + i] as int as real - p.yOrigin - p.yReference) * p.yIncrement
    ensures forall i :: 0 <= i < |w.t| ==> w.t[i] == i as real * p.xIncrement
  {
    var data := Payload(raw);
    TimeAxisExact(|data|, p.xIncrement);
    Waveform(Calibrate(data, p), TimeAxis(|data|, p.xIncrement).value, p)
  }

  /** `capture_waveform(channel)` given the instrument's replies. */
  function CaptureWaveform(channel: string, replies: Replies): (c: Capture)
    ensures ParsePreamble(replies.preamble, replies.sampleRate).Failure? ==>
      c.trace == MetadataQueries && c.result == Failure(ParsePreamble(replies.preamble, replies.sampleRate).error)
    ensures ParsePreamble(replies.preamble, replies.sampleRate).Success? ==>
      c.trace == CaptureCommands(channel)
    ensures c.result.Success? <==>
      ParsePreamble(replies.preamble, replies.sampleRate).Success? &&
      ParsePreamble(replies.preamble, replies.sampleRate).value.xIncrement != 0.0
    ensures ParsePreamble(replies.preamble, replies.sampleRate).Success? && c.result.Failure? ==>
      c.result.error == ZeroDivisionError
    ensures c.result.Success? ==>
      c.result.value == Reconstruct(replies.raw, ParsePreamble(replies.preamble, replies.sampleRate).value)
  {
    match ParsePreamble(replies.preamble, replies.sampleRate)
    case Failure(e) => Capture(MetadataQueries, Failure(e))
    case Success(p) =>
      if p.xIncrement == 0.0 then
        // np.arange with a zero step raises before anything is returned
        Capture(CaptureCommands(channel), Failure(ZeroDivisionError))
      else
        Capture(CaptureCommands(channel), Success(Reconstruct(replies.raw, p)))
  }

  /** With a positive time increment the time axis starts at zero and is
      strictly increasing. */
  lemma TimeAxisIncreasing(raw: seq<byte>, p: Preamble)
    requires p.xIncrement > 0.0
    ensures var t := Reconstruct(raw, p).t;
      && (|t| > 0 ==> t[0] == 0.0)
      && forall i, j :: 0 <= i < j < |t| ==> t[i] < t[j]
  {
    var t := Reconstruct(raw, p).t;
    forall i, j | 0 <= i < j < |t|
      ensures t[i] < t[j]
    {
      assert t[j] - t[i] == (j - i) as real * p.xIncrement;
    }
  }

  /** A preamble reply that stops short of ten fields raises `IndexError`
      when every field it does have, and the sample rate, would convert: the
      first failing entry is then a missing field. */
  lemma ShortPreambleRaisesIndexError(preambleReply: string, rateReply: string)
    requires var pre := Text.Split(preambleReply, ',');
      && |pre| < 10
      && (forall k :: 0 <= k < |pre| && k < 4 ==> Numbers.ParseInt(pre[k]).Some?)
      && (forall k :: 4 <= k < |pre| ==> Numbers.ParseReal(pre[k]).Some?)
      && Numbers.ParseReal(Text.Split(rateReply, ',')[0]).Some?
    ensures ParsePreamble(preambleReply, rateReply) == Failure(IndexError)
  {
  }

  /** Fields after the tenth of the preamble reply change nothing. */
  lemma ExtraPreambleFieldsIgnored(preambleReply: string, extra: string, rateReply: string)
    requires |Text.Split(preambleReply, ',')| >= 10
    ensures ParsePreamble(preambleReply + "," + extra, rateReply) == ParsePreamble(preambleReply, rateReply)
  {
    var pre := Text.Split(preambleReply, ',');
    Text.SplitConcat(preambleReply, extra, ',');
    FieldsExtended(pre, Text.Split(extra, ','), 0, 4, Numbers.ParseInt);
    FieldsExtended(pre, Text.Split(extra, ','), 4, 10, Numbers.ParseReal);
  }

  /** Only the first field of the sample-rate reply is read. */
  lemma ExtraRateFieldsIgnored(preambleReply: string, rateReply: string, extra: string)
    ensures ParsePreamble(preambleReply, rateReply + "," + extra) == ParsePreamble(preambleReply, rateReply)
  {
    Text.SplitConcat(rateReply, extra, ',');
  }

  /** The declared `points` and `count` are never compared with the data: a
      capture that succeeds succeeds for a data reply of any length. */
  lemma DeclaredLengthUnchecked(channel: string, replies: Replies, raw: seq<byte>)
    requires CaptureWaveform(channel, replies).result.Success?
    ensures CaptureWaveform(channel, replies.(raw := raw)).result.Success?
    ensures CaptureWaveform(channel, replies.(raw := raw)).result.value.preamble ==
            CaptureWaveform(channel, replies).result.value.preamble
  {
  }
}
