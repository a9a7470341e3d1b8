# Polarimeter controller: waveform capture, output naming and event counting

This project models, in Dafny, the three deterministic pieces of the
polarimeter controller's acquisition pipeline.

- `OscilloscopeController.capture_waveform`:
  - asks the oscilloscope for its waveform preamble and its sample rate;
  - selects the source channel and requests the data block;
  - decodes the ten comma-separated preamble fields;
  - drops the first 11 bytes of the data reply unread, and its one-byte trailer.
    The 11 bytes are the header of a definite-length arbitrary block (section
    8.7.9 of IEEE 488.2) in the `#9nnnnnnnnn` form this instrument sends. The
    standard also allows `#1` to `#8` headers, which the code does not
    handle;
  - turns the unsigned 8-bit samples into a calibrated signal and a time axis.
- `Measurement.validate_file_name` picks an output path that names no
  existing file. It uses `base_1.ext`, `base_2.ext`, … when the plain name is
  taken.
- `Measurement.count_events` and `Measurement.measure_count_events`:
  - repeat a capture, frequency query and peak count `num_iters` times;
  - keep a running total of the events;
  - compute the mean and the summary figures;
  - write one table under the validated name.

The instrument is not modelled as a device. Its replies are inputs:
- `Scope.Replies` for one capture;
- `Measure.TrialExchange` for one trial;
- plain strings for the summary queries.

The commands sent are returned as a trace (`seq<Scope.Command>`). Exceptions
are the values of `Exceptions.Exception`: `IndexError`, `ValueError` and
`ZeroDivisionError`. An operation that raises returns `Failure` or `Aborted`
carrying the exception that propagates.

Python's own conversions are modelled concretely, because every decoded field
passes through them:
- `str.split` on one separator and `str.join` are in `Text`;
- so is the whitespace trimming `int()` and `float()` apply. It skips the ASCII
  space, tab, line feed, vertical tab, form feed and carriage return, and the
  non-ASCII whitespace of `str.isspace`. It does not skip the separators
  U+001C..U+001F;
- slicing with negative bounds is in `Text`;
- `int()`, `float()` and `str()` on integers are in `Numbers`, for the ASCII
  decimal grammar.

Amplitude and time arithmetic is over `real`.

Files:
- `wrappers.dfy`: `Option` and `Result`.
- `exceptions.dfy`: the Python exception kinds.
- `text.dfy`, `numbers.dfy`: the Python string and number operations.
- `scope.dfy`: `capture_waveform`.
- `naming.dfy`: `validate_file_name`.
- `measure.dfy`: `count_events` and `measure_count_events`.

The declared `points` and `count` of the preamble are never compared with the
length of the data block (`Scope.DeclaredLengthUnchecked`). A data block of
any length yields a waveform of matching length, and a block of 12 bytes or
fewer yields an empty one. The model follows the code here: there is no
acquisition error for a length mismatch.

## Model

| member | source | states |
|---|---|---|
| Text.Split | controllers/oscilloscopeController.py:77-78 | `split(',')` always yields at least one field; no field contains the separator; joining the fields with the separator gives the reply back |
| Text.SplitJoin | controllers/oscilloscopeController.py:77-78 | the converse round trip: splitting the join of separator-free fields gives exactly those fields |
| Text.SplitConcat | controllers/oscilloscopeController.py:77-78 | a text, a separator and a further text split into the fields of the first followed by those of the second |
| Text.StripPadded | controllers/oscilloscopeController.py:81-91 | the whitespace that `int()`/`float()` skip (ASCII space, tab, line feed, vertical tab, form feed and carriage return, and non-ASCII `str.isspace` whitespace, but not U+001C..U+001F): trimming removes exactly that padding around a text that neither starts nor ends with it |
| Numbers.NatToStringValue | controllers/measure.py:140 | the digits `str(i)` writes for the probe counter denote `i` |
| Numbers.NatToStringInjective | controllers/measure.py:140 | different counters are written differently |
| Numbers.ScanNatSpec | controllers/oscilloscopeController.py:81-84 | the digit scanner behind `int()` accepts exactly non-empty digit runs and reads them most significant first |
| Numbers.IntToStringDecimal | controllers/oscilloscopeController.py:81-84 | `str(i)` is a signed decimal whose value is `i` |
| Numbers.IntToStringRoundTrip | controllers/oscilloscopeController.py:81-84 | `int(str(i) + pad) == i` for any padding of the whitespace `int()` skips, such as a reply's line end |
| Numbers.IntSyntaxIsRealSyntax | controllers/oscilloscopeController.py:81-91 | every text `int()` accepts, `float()` accepts with the same value |
| Numbers.ParseRealFractionExample | controllers/oscilloscopeController.py:85-91 | `float("-.5") == -0.5` |
| Numbers.ParseRealExponentExample | controllers/oscilloscopeController.py:85-91 | `float(" 2.5e-3\n") == 0.0025` exactly |
| Numbers.ParseIntExamples | controllers/oscilloscopeController.py:81-84 | `int("+007\n") == 7`, and `int("1.0")` raises |
| Numbers.ParseIntSeparatorExample | controllers/oscilloscopeController.py:81-84 | `int("\x1c7")` raises: U+001C is not skipped |
| Numbers.ParseRealAccepts | controllers/oscilloscopeController.py:85-91 | the converse of `ParseRealLiteral`: every text `float()` accepts is a whitespace-padded decimal literal of that form, so any other reply within the modelled ASCII grammar raises `ValueError` |
| Numbers.ParseRealLiteral | controllers/oscilloscopeController.py:85-91 | `float()` of any whitespace-padded decimal literal: optional sign; integer digits `a`; optional point and fraction digits `b`, at least one digit in all; optional `e` or `E` and a signed decimal exponent `x`. The value is `±int(a+b) * 10^(x - len(b))`, with `x = 0` when there is no exponent and the minus only after `-` |
| Scope.Fields | controllers/oscilloscopeController.py:80-91 | reading positional fields `lo..hi` succeeds iff every position exists and parses; value `i` is the parse of field `lo+i`; on failure the exception comes from the first position that is missing or does not parse: `IndexError` if missing, else `ValueError` with that field's text |
| Scope.FieldsExtended | controllers/oscilloscopeController.py:80-91 | reading fields `lo..hi` looks at nothing past field `hi-1` |
| Scope.ParsePreamble | controllers/oscilloscopeController.py:77-92 | the preamble decodes iff the reply has at least 10 fields, fields 0-3 parse as `int`, the first sample-rate field and fields 4-9 parse as `float`; on success each of the 11 entries is the parse of its field (0-3 format, type, points, count; Fs; 4-9 x increment, x origin, x reference, y increment, y origin, y reference); on failure the exception is that of the first failing entry in source order (fields 0-3, then the sample rate, then fields 4-9): `IndexError` for a missing field, else `ValueError` with the text that did not convert |
| Scope.ShortPreambleRaisesIndexError | controllers/oscilloscopeController.py:77-92 | a reply of fewer than ten fields whose present fields, and the sample rate, all convert raises `IndexError` |
| Scope.ExtraPreambleFieldsIgnored | controllers/oscilloscopeController.py:77-92 | fields after the tenth of the preamble reply do not change the outcome |
| Scope.ExtraRateFieldsIgnored | controllers/oscilloscopeController.py:78 | fields after the first of the sample-rate reply do not change the outcome |
| Scope.Payload | controllers/oscilloscopeController.py:99 | `rawdata[11:-1]` has `max(0, len - 12)` bytes and byte `i` is `raw[11+i]` |
| Scope.CalibrateInvertible | controllers/oscilloscopeController.py:100 | with a non-zero y increment, every raw sample can be recovered from its calibrated value |
| Scope.TimeAxisExact | controllers/oscilloscopeController.py:101 | over the reals, `arange(0, n*dx, dx)` for a non-zero `dx` has exactly `n` entries, entry `i` being `i*dx` |
| Scope.Reconstruct | controllers/oscilloscopeController.py:99-103 | signal and time axis both have one entry per payload byte; `signal[i] = (raw[11+i] - y_origin - y_reference) * y_increment`; `t[i] = i * x_increment`; the preamble is returned unchanged |
| Scope.CaptureWaveform | controllers/oscilloscopeController.py:67-103 | a preamble that does not decode aborts after the two metadata queries, with the decoding exception; otherwise the commands are both queries, source, mode, data request and raw read, in that order; a zero x increment raises `ZeroDivisionError` from `arange`; otherwise the result is the reconstructed waveform |
| Scope.TimeAxisIncreasing | controllers/oscilloscopeController.py:101 | for a positive x increment, `t[0] = 0` and `t` is strictly increasing |
| Scope.DeclaredLengthUnchecked | controllers/oscilloscopeController.py:80-103 | a capture that succeeds succeeds with the same preamble for a data block of any length |
| Naming.PathJoinShape | controllers/measure.py:132 | `os.path.join` keeps the name as the tail of the path: an absolute name replaces the folder, a relative one follows the folder prefix |
| Naming.NameParts | controllers/measure.py:135-136 | the split succeeds iff the name contains a period, else it raises `IndexError`; `base` is the text before the first period; `ext` is the text between the first and second period (or to the end) |
| Naming.NamePartsExample | controllers/measure.py:135-136 | `run.tar.gz` gives base `run` and extension `tar`, dropping `gz`; `run` raises `IndexError` |
| Naming.ProbeInjective | controllers/measure.py:140-141 | different counters give different candidate paths |
| Naming.ResolvesUnique | controllers/measure.py:132-145 | at most one path is the plain join when that is free, or else the first free candidate |
| Naming.FirstFreeProbe | controllers/measure.py:137-143 | probing from counter 1 upward stops at a counter whose candidate is free, all smaller ones from 1 being taken; it terminates for any finite folder |
| Naming.ValidateFileName | controllers/measure.py:126-145 | fails iff the name has no period, with `IndexError`, whether or not the file exists; otherwise returns a path that names no existing file: the plain join when that is free, else `base_k.ext` for the smallest free `k >= 1`; the folder contents are only read |
| Naming.ResolvesExample | controllers/measure.py:126-145 | with `data/out.csv` and `data/out_1.csv` taken, `out.csv` resolves to `data/out_2.csv` |
| Measure.CountEvents | controllers/measure.py:59-69 | a failed capture propagates with its trace; otherwise the frequency query follows; the row is `(peaks of the signal, float(frequency))`, and an unreadable frequency raises `ValueError` |
| Measure.TrialOnCommands | controllers/measure.py:65-66 | every trial that completes sends the same commands: the capture's six, then the frequency query |
| Measure.Trials | controllers/measure.py:80-81 | trial `k` of the loop is `count_events` on exchange `k` |
| Measure.FirstFailure | controllers/measure.py:80-81 | the index of the first failing trial: all before it complete, and it fails unless it is the end |
| Measure.RunTrials | controllers/measure.py:78-83 | the loop stops at the first failing trial with that trial's exception and the commands sent so far; otherwise `results` has one row per iteration, in order, each the row of that trial, and the running total is the sum of their events |
| Measure.TotalEventsBounds | controllers/measure.py:79-83 | a running total of counts in `lo..hi` lies between `lo` and `hi` times the number of rows |
| Measure.MeanBounds | controllers/measure.py:85 | the mean of counts in `lo..hi` lies in `lo..hi` |
| Measure.MeanExample | controllers/measure.py:85 | counts 5, 7 and 6 have mean exactly 6 |
| Measure.Summarise | controllers/measure.py:85-97 | no rows raise `ZeroDivisionError` before any query; then the time-scale and frequency queries; an unreadable time scale raises `ValueError`; a zero one raises `ZeroDivisionError`; a name without a period raises `IndexError`; otherwise one table of all rows is saved under the resolved path, with `mean * rows = total` and `counts/s * (scale * 14) = mean` |
| Measure.MeasureCountEvents | controllers/measure.py:71-97 | the first failing trial aborts the run with its exception and nothing is saved; `num_iters <= 0` raises `ZeroDivisionError` with no command sent; once all trials complete, an unreadable time scale raises `ValueError` with its text, a zero one `ZeroDivisionError`, and a name without a period `IndexError`, in that order of precedence; a run is saved iff all trials complete, the time scale is a non-zero number and the name has a period; the saved table has `num_iters` rows equal to the trials' rows in order, with the mean and summary of those rows, under a path that names no existing file |

## Left out

- The pyvisa transport is not modelled: connecting, disconnecting, `send_command`/`send_query`, sleeps and `sys.exit`. Replies are inputs and commands a trace.
- Peak detection (`scipy.signal.find_peaks`) is the parameter `findPeaks`, an arbitrary function from the signal to a count. Its source is not part of this model.
- `measure_single_event` and `plot_signal` are matplotlib and CSV output around the capture already modelled.
- Printing of the summary is the `Summary` record. The pandas CSV write is the single `Saved` outcome, not a file.
- The line `Mean counts:` is printed before `float(time_scale)` can raise (controllers/measure.py:89-90). An aborted run carries no output, so this partial printing is not modelled.
- Default arguments are not modelled: `num_iters=1000` and `outputfile_name='temp_out.csv'` (controllers/measure.py:71), and `folder='data'` (controllers/measure.py:55). Every operation takes all of them explicitly.
- `float` is an exact `real`. IEEE rounding of the scaling, the float-step length quirk of `np.arange` and overflow are not modelled. `float` also has no `inf`, `nan` or underscore forms.
- `int` is the ASCII decimal grammar with an optional sign. Digit separators (`1_000`) and non-ASCII digits are not modelled.
- Numbers.ScanNatSpec: accepts digit runs of any length. CPython's `int()` raises `ValueError` for more than 4300 digits (`sys.int_max_str_digits`, since 3.11 and the matching security releases). This is not modelled because no instrument reply comes near that length.
- Numbers.IntToStringRoundTrip: holds for every integer. CPython's `str(i)` raises `ValueError` once `i` has more than 4300 digits, under the same limit. This is not modelled because the probe counters and preamble integers stay far below it.
- Numbers.IntToStringDecimal: `str(i)` is a signed decimal for every integer. CPython's `str(i)` raises `ValueError` past 4300 digits, as for `IntToStringRoundTrip`. This is not modelled for the same reason.
- Numbers.ParseRealAccepts: covers only the ASCII decimal grammar. CPython's `float()` also accepts `inf`, `infinity` and `nan` in any case, underscores between digits (`1_0`) and non-ASCII decimal digits (`١`). The model rejects these forms, though no instrument reply uses them, and a `real` has no infinity or NaN to hold the first three.
- `np.arange` with a zero step is taken to raise `ZeroDivisionError`, as NumPy does. NumPy's source is not part of this model.
- `os.path.isfile` is membership in the set of existing paths, so a directory of that name counts as no file. `os.path.join` is the POSIX join.
- `controllers/rotorMountController.py` and `controllers/mokuController.py` are device wrappers, and are not part of this model.
- `main.py` and `real_time.py` are experiment scripts, and are not part of this model.
