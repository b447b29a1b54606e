# A verified model of mlibc's ANSI layer

The project models the parts of mlibc (a C standard library) whose correctness is hard to see from
the code: exact floating-point algorithms on integers, the buffered stream engine behind `FILE`,
calendar arithmetic, the environment vector, `qsort`/`bsearch` and the printf sinks. `dafny verify
dfyconfig.toml` checks everything.

## What is proved

**fma, end to end.** `Fma.Fma` takes three bit patterns and returns the exact `x*y + z` rounded once
to the nearest double, ties to even, for all finite operands: subnormal operands and results,
massive cancellation, products and addends thousands of binary places apart, overflow. The stages
meet in one notion, rounding to odd (`Bits.Sticky`): `Fma.Sum` delivers the exact sum cut to 63 bits
and rounded to odd, `FmaConvert.ToDouble` rounds that integer correctly in the normal range, in the
binade just below it and deep in the subnormal range, and `Scalbn.Scalbn` rounds once for every
double and every exponent. `Ieee.RoundIsNearest` shows that the rounding used in the statements
picks the nearest number of the format, and `Ieee.PatternIsValue`, `ValueHasPattern` and `PowerPattern` tie the
bit layouts to the formats. One defect came out: with a zero addend `fma` evaluates
`x*y + z` with the processor, so a negative product that underflows to zero loses its sign when `z`
is `+0`; `Fma.Correct` states that this is the only case, `Fma.SignLost` gives an instance.

**fmod, fmodf, fmodl.** The shift-and-subtract loops return the exact remainder of the magnitudes, for
any field layout; `fmodl`'s two loops do the same although one notices overflow by wrap-around and the
other borrows between two words. `FmodLong.Remainder` is `fmodl` as a whole: the exits, the scaling of
subnormal operands by 2^120, either loop, and the scaling back, which never rounds.

**Argument reduction.** The base-2^24 digit arithmetic of `__rem_pio2_large` conserves the value: the
integer it returns is a nearest one modulo 8, and the digits left are the distance to it
(`RemPio2.ReduceChunks`).

**Streams.** `FileIO.AbstractFile` is `abstract_file` on top of a descriptor whose errors and short
transfers are arbitrary. Without any rule on the order of calls the stream is the machine of
`PlainFile.LooseStep`: a read or a write takes place at the stream's position or where the descriptor
will land, and the state before the call says which; only errors, the sizes of the descriptor's
transfers and a buffer mode not yet chosen are open. `PlainFile.RunLoose` shows this for every run of
reads, writes, seeks, flushes, tells and ungets, `TraceContents` that the contents are always those at
the start with exactly the writes applied, and `RunAnyOrder` that a write-back puts them into the file.
When the stream is written to only with no read-ahead unread, `RuleIsPlain` turns every such step into a
step of a file without a buffer, and `PlainFile.Run` is the theorem for every run. `RuleSuffices` puts
this in the caller's terms: a program that writes only after a successful seek or flush, or after a read
that failed or met the end of the file (section 7.21.5.3 paragraph 7 of C11), has every call made.
`SwitchWithoutSeek` shows what happens otherwise: bytes are read twice. `PlainFile.RunPipe` is the
conservation law for pipes.
Four promises turned out to hold only on a condition, which the contracts state exactly: the count
`read` reports (`PushedAtEnd`), the position a read continues at (`SwitchWithoutSeek`), the newline
that a line-buffered stream keeps pending (`PendingLine`) and the result of `unget` (`PushedEof`).
Errors have a cause throughout: the descriptor counts the calls it refuses, and every operation, every
event of a run and every loop of `stdio` reports an error exactly when that count rose, with ESPIPE on
pipes and seeks to a place before the file as the stated exceptions (`Descriptor.Blamed`).

**Calendar.** The closed forms of `civil_from_days` and `days_from_civil` are inverse to each other and
step through the Gregorian calendar, for all integers. Four things are false and are stated with
their exact conditions: `gmtime_r` before the epoch (`GmtimeExact`, `BeforeEpoch`), times whose day
number is not an int (`TimegmGmtime`, `DayNarrowed`), `tm_yday` (`YeardayExact`, `YeardayWrong`) and int
overflow at the end of the range (`CivilWidth`, `DaysWidth`); `GmtimeWidth` and `RoundTripWidth` combine
them into the ranges in which `gmtime_r`, and the round trip through `timegm`, are sound in machine
integers.

**Environment, sorting, printing.** The environment vector refines a finite map over every run of calls
as long as names are unique; `RemovalComplete` says exactly when `unsetenv` makes a name disappear.
`clearenv` clears a copy of the vector (`environment.cpp:176`), so `Clearenv` keeps every variable.
`qsort` permutes whole records for any comparator and sorts for any preorder; `bsearch` needs no more
than the partition that section 7.22.5.1 of C11 asks for, and `SortedPartitions` says that `qsort` leaves it.
The printf sinks differ on a string that holds a NUL: the bounded one cuts it there and the growing one
does not, so `vsnprintf` and `vasprintf` report the same length exactly when there is none (`SameOutput`).

## Modelling decisions

- Machine words are naturals with explicit wrap-around (`Bits`); `|` is a bitwise function on naturals.
- Floating-point operations are the exact operation followed by one rounding to nearest, ties to even
  (`Ieee`). A datum is its number of least subnormals.
- The descriptor's errors and transfer sizes, the terminal test and the caller's buffers are
  nondeterministic choices, parameters and results.
- Postconditions speak of the exceptional cases with a ghost result (`failed`, `accepted`) where the
  source leaves the caller no way to see them.
- A signed int overflow is undefined in C; the calendar functions are on integers, and `CivilWidth` and
  `DaysWidth` say exactly for which day numbers no intermediate value overflows. The conversion of the
  day number to int in `gmtime_r` wraps (`Calendar.Narrow`).
- Whether plain char is signed is a constant of the stream (`signedChar`); it decides what `unget` returns.
- `ESPIPE` is an error of seeking; reads and writes of the descriptor fail with other codes.
- Whether the descriptor is a terminal and whether the stream was opened unbuffered are constants that decide
  the buffer mode; the terminal test may be refused like any other call.

## Model

| member | source | states |
|---|---|---|
| Fma.Fma | options/ansi/musl-generic-math/fma.c:53-194 | for all finite doubles the result is exact x*y+z rounded once to nearest even, with the right sign unless a negative product underflows against +0; an exact zero is negative exactly when product and addend are |
| Fma.Sum | options/ansi/musl-generic-math/fma.c:71-147 | the zero exit is taken exactly when the exact sum is zero; otherwise rhi is in [2^62, 2^63), rhi*2^e is the exact sum cut to 63 bits and rounded to odd, and the sign is that of the sum |
| Fma.AddSigned | options/ansi/musl-generic-math/fma.c:110-129 | two-word sum or absolute difference, and the sign it ends with |
| Fma.NormalizeMeaning | options/ansi/musl-generic-math/fma.c:22-38 | a finite nonzero double, subnormal or not, is m*2^e with even m in [2^53, 2^54); zero and non-finite inputs are told apart by e |
| Fma.SignLost | options/ansi/musl-generic-math/fma.c:63-69 | the least subnormal times its negative plus zero: rounding gives -0, the zero-addend exit gives +0 |
| FmaConvert.ToDouble | options/ansi/musl-generic-math/fma.c:149-193 | every 63-bit integer times any power of two is converted with a single rounding, also just below and far below the normal range |
| FmaConvert.DeepRange | options/ansi/musl-generic-math/fma.c:184-191 | far below the normal range 53 bits rounded to odd give the same final rounding as all 63 |
| FmaConvert.RemoveTop | options/ansi/musl-generic-math/fma.c:170-175 | the extra top bit is removed without rounding |
| FmaConvert.UnderflowNoise | options/ansi/musl-generic-math/fma.c:177-182 | the expression that raises the underflow flag leaves the result unchanged |
| FmaExact.TopIsExact | options/ansi/musl-generic-math/fma.c:76-147 | alignment, addition and extraction compose to the exact sum rounded to odd, the one-bit stand-ins for far operands included |
| FmaExact.FarAlignment | options/ansi/musl-generic-math/fma.c:93-96 | replacing a product 128 or more places below the addend by a single bit is harmless at every precision kept |
| FmaExact.NearAlignment | options/ansi/musl-generic-math/fma.c:80-108 | aligned operands add and subtract to the exact result rounded to odd |
| FmaExact.Cancellation | options/ansi/musl-generic-math/fma.c:124-129 | the high word can only vanish when the alignment was exact |
| FmaAlign.Align | options/ansi/musl-generic-math/fma.c:76-108 | product and addend brought to a common exponent, lost bits kept in the lowest bit |
| FmaAlign.TopBits | options/ansi/musl-generic-math/fma.c:131-147 | the top 63 bits of a two-word number with a sticky lowest bit, or its exact value when it is short |
| FmaWords.Clz64 | options/ansi/musl-generic-math/fma.c:5-15 | the number of zero bits above the highest set bit |
| FmaWords.MulWords | options/ansi/musl-generic-math/fma.c:40-51 | the 128-bit product is right exactly when the middle sum fits one word |
| FmaWords.ShiftSticky | options/ansi/musl-generic-math/fma.c:91-92 | the two-word right shift is division rounded to odd |
| FmaWords.SubWords | options/ansi/musl-generic-math/fma.c:119-127 | absolute difference of two-word numbers by borrow and negation, and which one was larger |
| FmaWords.AddWords | options/ansi/musl-generic-math/fma.c:114-117 | sum of two-word numbers with carry |
| Rounding.StickyTwice | options/ansi/musl-generic-math/fma.c:136 | rounding to odd in two steps is rounding to odd once |
| Rounding.NearestSticky | options/ansi/musl-generic-math/fma.c:149-153 | a value rounded to odd with two spare bits rounds to nearest like the exact value |
| Ieee.RoundIsNearest | options/ansi/musl-generic-math/fma.c:153 | conversion to a format picks a nearest number of the format, and on a tie the even one |
| Ieee.RoundIsValue | options/ansi/musl-generic-math/fma.c:153 | the result of rounding is a number of the format |
| Ieee.DecodeEncode | options/ansi/musl-generic-math/fma.c:17 | a double survives the trip through its bit pattern |
| Ieee.PatternIsValue | options/ansi/musl-generic-math/fmodf.c:7-8 | every pattern of a layout is a datum of its format |
| Ieee.ValueHasPattern | options/ansi/musl-generic-math/fmodf.c:58-64 | every finite datum of a format has a pattern that decodes to it |
| Ieee.SpecialPattern | options/ansi/musl-generic-math/fma.c:22-38 | an exponent field of ones is an infinity with a zero fraction and otherwise not a number |
| Ieee.MulLaws | options/ansi/musl-generic-math/fma.c:63-69 | the processor's product commutes, signs move out of it, infinities absorb |
| Ieee.AddLaws | options/ansi/musl-generic-math/fma.c:63-69 | the processor's sum commutes, infinities absorb, opposite infinities are invalid |
| Ieee.FloatLayout | options/ansi/musl-generic-math/fmodf.c:7-8 | the layout of float: 23 fraction bits, bias 0x7f, and its patterns are data of the format |
| Ieee.DoubleLayout | options/ansi/musl-generic-math/fmod.c:7-8 | the same for double: 52 fraction bits, bias 0x3ff |
| Scalbn.Scalbn | options/ansi/musl-generic-math/scalbn.c:4-33 | x*2^n rounded once, for every double and every n |
| Scalbn.ScaleDown | options/ansi/musl-generic-math/scalbn.c:18-28 | the reduction by 2^-969 never causes a second rounding |
| Fmod.Fmod | options/ansi/musl-generic-math/fmod.c:4-68 | the exact remainder of the magnitudes with the sign of x; x itself for infinite y; the invalid operation exactly for non-finite x and for zero or NaN y |
| Fmod.Fmodf | options/ansi/musl-generic-math/fmodf.c:4-65 | the same for float |
| Fmod.Remainder | options/ansi/musl-generic-math/fmod.c:16-67 | the same for every field layout |
| Fmod.Normalize | options/ansi/musl-generic-math/fmod.c:24-38 | a nonzero word becomes a full-length significand and an exponent of the same value, and the search for the top bit ends |
| Fmod.Divide | options/ansi/musl-generic-math/fmod.c:40-55 | shift and subtract computes the residue of ux*2^(ex-ey) modulo uy |
| Fmod.Assemble | options/ansi/musl-generic-math/fmod.c:56-67 | the renormalised remainder becomes a word of exactly that magnitude; the shift into the subnormals loses nothing |
| Fmod.MagnitudeOrder | options/ansi/musl-generic-math/fmod.c:18-22 | comparing the words without sign compares the magnitudes |
| Fmodl.Divide64 | options/ansi/musl-generic-math/fmodl.c:37-60 | the 64-bit loop computes the residue although doubling may wrap, and renormalises it exactly |
| Fmodl.Divide113 | options/ansi/musl-generic-math/fmodl.c:61-94 | the two-word loop computes the residue with borrows between the words, and renormalises it exactly |
| Fmodl.SubPair | options/ansi/musl-generic-math/fmodl.c:68-72 | the sign bit of the high word tells whether the difference is negative |
| Fmodl.ExactRemainder | options/ansi/musl-generic-math/fmodl.c:36-95 | the renormalised result is the remainder of the two values, in any unit fine enough |
| FmodLong.Remainder | options/ansi/musl-generic-math/fmodl.c:9-104 | for long doubles of 64 and 113 bits: the exact remainder of the magnitudes with the sign of x, subnormal operands and results included; x for infinite y; NaN exactly for non-finite x and for zero or NaN y |
| FmodLong.LongFields | options/ansi/musl-generic-math/fmodl.c:11-13 | in both long formats 2^n has exponent field 0x3fff+n and a leading significand bit, and 2^16383 is the largest power of two |
| FmodLong.Normalize | options/ansi/musl-generic-math/fmodl.c:26-34 | every positive operand becomes a full significand and an exponent of the same value; scaling a subnormal by 2^120 is exact |
| FmodLong.Assemble | options/ansi/musl-generic-math/fmodl.c:97-103 | the fields become a datum of exactly the remainder's magnitude; scaling back by 2^-120 never rounds |
| FmodLong.RenormalizedIs | options/ansi/musl-generic-math/fmodl.c:59-60 | the renormalised exponent never falls below the reach of the scaling |
| RemPio2.Distill | options/ansi/musl-generic-math/__rem_pio2_large.c:301-306 | distillation is exact carrying: the number whose digits are the chunks, q[jz] lowest and q[0] highest, is z*B^jz plus the digits, all digits below B |
| RemPio2.ChunksAreDigits | options/ansi/musl-generic-math/__rem_pio2_large.c:301-306 | the chunks taken from q[jz] down are the digits of one number |
| RemPio2.OneMeans | options/ansi/musl-generic-math/__rem_pio2_large.c:308-310 | the unit: a value counts 2^q0 / 2^(24 jz) |
| RemPio2.Reduce | options/ansi/musl-generic-math/__rem_pio2_large.c:308-347 | n, from 0 to 8, is a nearest integer modulo 8, a half rounds up, what remains is at most one half, and together they are the value |
| RemPio2.ReduceChunks | options/ansi/musl-generic-math/__rem_pio2_large.c:301-347 | distillation and reduction together: the number whose digits are the chunks, q[0] the highest, is 8k+n and a distance of at most one half |
| RemPio2.SplitOnes | options/ansi/musl-generic-math/__rem_pio2_large.c:308-320 | integer part modulo 8 and fraction add up to the value, and ih tells whether the fraction is at least one half |
| RemPio2.OneMinus | options/ansi/musl-generic-math/__rem_pio2_large.c:323-341 | a nonzero digit vector becomes its distance to one; zero stays zero and sets no carry |
| RemPio2.ComplementDigits | options/ansi/musl-generic-math/__rem_pio2_large.c:323-333 | the carry loop subtracts a nonzero number from B^jz |
| FileIO.AbstractFile.Read | options/ansi/generic/file-io.cpp:107-176 | push-back first, then the bytes at the read position; nothing is lost from the stream but what was copied, also after an error; the count is short exactly when there is push-back, less than asked for, with nothing behind it on a buffered stream; the position advances by the bytes read exactly when bytes were left in the buffer or the descriptor will stand at its end; buffered bytes are served without touching the descriptor; end-of-file mark; an error is reported exactly when the descriptor refused a call, apart from ESPIPE of a pipe with misplaced dirty bytes |
| FileIO.AbstractFile.Write | options/ansi/generic/file-io.cpp:178-241 | a prefix is written over the logical contents at the write position, on a line-buffered stream up to the first newline; after success a newline is pending exactly when one was pending before, the buffer was not full and the bytes taken hold none; a failed write-out keeps it pending; an error is reported exactly when the descriptor refused a call, apart from ESPIPE on a pipe with unread input |
| FileIO.AbstractFile.WriteBuffered | options/ansi/generic/file-io.cpp:195-240 | the buffered part of a write: how much is taken and where it goes |
| FileIO.AbstractFile.BufferBytes | options/ansi/generic/file-io.cpp:219-231 | the dirty hull keeps every byte right, clean bytes swept into it included |
| FileIO.AbstractFile.Unget | options/ansi/generic/file-io.cpp:243-258 | the byte becomes the next of the stream unless eight are pending; EOF is returned exactly when eight are pending or, with signed char, for byte 255 |
| FileIO.AbstractFile.PushedEof | options/ansi/generic/file-io.cpp:252-257 | byte 255 is pushed back and EOF is returned |
| FileIO.AbstractFile.PushedAtEnd | options/ansi/generic/file-io.cpp:113-165 | one byte pushed back at the end of a buffered stream: a read of two copies it and reports none |
| FileIO.AbstractFile.PendingLine | options/ansi/generic/file-io.cpp:233-237 | a line whose write-out failed stays pending through a later successful write |
| FileIO.AbstractFile.Purge | options/ansi/generic/file-io.cpp:268-274 | buffer and push-back are forgotten and the stream stands where the descriptor stands |
| FileIO.AbstractFile.Flush | options/ansi/generic/file-io.cpp:280-292 | contents and position of a file stay, the descriptor's file and position take them over; a pipe keeps its unread input; it fails exactly when the descriptor refused a call or a pipe has misplaced dirty bytes |
| FileIO.AbstractFile.Tell | options/ansi/generic/file-io.cpp:294-303 | the stream's position with push-back counted; it fails exactly on a pipe or when the descriptor refused |
| FileIO.AbstractFile.Seek | options/ansi/generic/file-io.cpp:305-337 | new position for each whence, contents kept, everything written out; relative to the current position it agrees with tell exactly when nothing is pushed back; a failed seek keeps position and stream; it fails exactly when the descriptor refused a call, on a pipe, or for a place before the file |
| FileIO.AbstractFile.WriteBack | options/ansi/generic/file-io.cpp:375-408 | logical contents and position kept under any short writes and errors; success makes the file equal the contents; ESPIPE exactly on a pipe whose dirty bytes do not start where the descriptor stands, so never in a strict state, where no seek is made either; every other error is a refusal of the descriptor |
| FileIO.AbstractFile.SavePos | options/ansi/generic/file-io.cpp:410-439 | the descriptor moves to the stream's position, or unread pipe input is preserved |
| FileIO.AbstractFile.Reset | options/ansi/generic/file-io.cpp:441-456 | the position survives exactly when the descriptor stood at the offset |
| FileIO.AbstractFile.InitType | options/ansi/generic/file-io.cpp:350-358 | the type found is the descriptor's, and is asked for once |
| FileIO.AbstractFile.InitBufmode | options/ansi/generic/file-io.cpp:360-368 | an unknown buffer mode becomes the natural one of the stream, a known one stays, and it fails exactly when the terminal test does |
| FileIO.AbstractFile.Refill | options/ansi/generic/file-io.cpp:142-165 | an exhausted buffer is replaced by the bytes that follow; it fails only when the descriptor refused a call or on misplaced dirty bytes of a pipe |
| FileIO.AbstractFile.SwitchWithoutSeek | options/ansi/generic/file-io.cpp:107-241 | a write into read-ahead, a read of the rest of the buffer and one more read: the last one starts over just after the written byte and returns bytes a second time |
| Overlay.Hull | options/ansi/generic/file-io.cpp:223-230 | writing into the buffer and widening the dirty window writes the logical file |
| Overlay.WriteOut | options/ansi/generic/file-io.cpp:396-405 | writing out part of the dirty window keeps the logical file and the clean bytes |
| PlainFile.Run | options/ansi/generic/file-io.cpp:103-408 | every run of read, write, seek, flush, tell and unget is a run of a file without a buffer; a write is left out exactly when read-ahead is unread, which a failed read or one at the end of the file never leaves; a program that follows the rule has every call made; each event is an error exactly when the descriptor refused a call, or for a seek to a place before the file |
| PlainFile.RuleSuffices | options/ansi/generic/file-io.cpp:103-408 | when every write follows a successful seek or flush, or a read that failed or met the end of the file, no call of the run is left out |
| PlainFile.Perform | options/ansi/generic/file-io.cpp:103-337 | one call is one step of a file without a buffer; a successful flush makes contents and position the descriptor's |
| PlainFile.RunLoose | options/ansi/generic/file-io.cpp:107-337 | reads, writes, seeks, flushes and ungets in any order: the state before each call says where the transfer takes place and how much a write takes, and each step says what a read returns, where the stream lands next, what is unread and what room is left; errors have the same causes |
| PlainFile.TraceContents | options/ansi/generic/file-io.cpp:219-231 | over any such run the contents are those at the start with exactly the writes applied, each at the position recorded before it |
| PlainFile.RunAnyOrder | options/ansi/generic/file-io.cpp:219-231 | after any such run a successful write-back makes the file equal those contents |
| PlainFile.RuleIsPlain | options/ansi/generic/file-io.cpp:143-165 | a step that is not a write into read-ahead, from an aligned state, is a step of a file without a buffer and leads to an aligned state |
| PlainFile.RunPipe | options/ansi/generic/file-io.cpp:107-439 | over any run on a pipe the bytes the calls took, the unread ones and those still in the pipe are the bytes that were to be read; the bytes delivered and dirty are those before and the ones each write accepted; what each call may return, accept and push back is said call by call; each event is an error exactly when the descriptor refused a call, or ESPIPE of a seek or tell |
| PlainFile.PipeConserves | options/ansi/generic/file-io.cpp:107-439 | the conservation law on traces |
| Stdio.Fwrite | options/ansi/generic/stdio.cpp:219-267 | chunking is invisible: a full count means all bytes at the position in order, a short one comes with the error mark; the count is short exactly when the descriptor refused a call |
| Stdio.WriteAll | options/ansi/generic/stdio.cpp:226-242 | the write loop takes all bytes or marks an error; exactly when the descriptor refused a call |
| Stdio.Fread | options/ansi/generic/stdio.cpp:2491-2538 | the bytes that follow in order, and the number of whole objects among them, with push-back pending too; only single bytes pushed back before the end of a buffered stream go uncounted; short only at the end of the stream; it fails exactly when the descriptor refused a call |
| Stdio.ReadAll | options/ansi/generic/stdio.cpp:2499-2514 | the read loop takes the bytes asked for or all that are left, and when its count is short of them; it fails exactly when the descriptor refused a call |
| Stdio.Fgetc | options/ansi/generic/stdio.cpp:2483-2488 | the next byte; EOF exactly at the end or after an error, and then nothing is taken; it fails exactly when the descriptor refused a call |
| Stdio.Fgets | options/ansi/generic/stdio.cpp:2553-2581 | the prefix up to the first newline, max-1 bytes or the end, with the rest left in the stream, also after an error; it fails exactly when the descriptor refused a call |
| Stdio.LookAhead | options/ansi/generic/stdio.cpp:1825-1832 | the next byte or 0, with the stream unchanged in every case; it fails exactly when the descriptor refused a call |
| Stdio.Consume | options/ansi/generic/stdio.cpp:1834-1841 | takes and counts the next byte; at the end and after an error neither; it fails exactly when the descriptor refused a call |
| Stdio.ScanStream | options/ansi/generic/stdio.cpp:1899-1917 | stream and string handlers agree on every run that does not consume past the end; what was counted is what is gone from the stream; it fails exactly when the descriptor refused a call |
| Calendar.CivilStep | options/ansi/generic/time.cpp:685-699 | day 0 is 1 January 1970 and each next number is the next Gregorian day |
| Calendar.KnownDays | options/ansi/generic/time.cpp:1000-1007 | 1 January 2000 is day 10957 and 1 January 1900 is day -25567 |
| Calendar.CivilRoundTrip | options/ansi/generic/time.cpp:1000-1007 | every day number gives a valid date that converts back to it |
| Calendar.DaysRoundTrip | options/ansi/generic/time.cpp:685-699 | every valid date converts to a number that gives it back |
| Calendar.NextDayNumber | options/ansi/generic/time.cpp:1000-1007 | consecutive dates have consecutive numbers |
| Calendar.YearOfEraCorrect | options/ansi/generic/time.cpp:689-691 | the closed form finds the year that contains the day |
| Calendar.WeekdayMeaning | options/ansi/generic/time.cpp:701-704 | the weekday is (n+4) mod 7, also before the epoch, and advances by one a day |
| Calendar.LeapOfEra | options/ansi/generic/time.cpp:713-715 | is_leap_year agrees with the leap days of the closed forms |
| Calendar.YeardayExact | options/ansi/generic/time.cpp:706-711 | how far the day of the year is off: by one from March on in ordinary years, by 2^30 before year 0; right exactly in January and February and in leap years from year 0 on |
| Calendar.YeardayWrong | options/ansi/generic/time.cpp:709 | 1 March 1971 is off by one |
| Calendar.TimegmGmtime | options/ansi/generic/time.cpp:1009-1015 | on integers, timegm undoes gmtime_r exactly for the times whose day number is an int |
| Calendar.TimegmIgnores | options/ansi/generic/time.cpp:1009-1015 | timegm gives the same time whatever tm_wday and tm_yday hold |
| Calendar.TimegmSteps | options/ansi/generic/time.cpp:1013 | one more second, minute or hour adds 1, 60 or 3600, in range or not |
| Calendar.TimegmNextDay | options/ansi/generic/time.cpp:1010-1013 | the next day is 86400 seconds later and midnight of 1 January 1970 is 0 |
| Calendar.DayNarrowed | options/ansi/generic/time.cpp:915 | the first day number that is not an int comes back as the earliest day |
| Calendar.RoundTripWidth | options/ansi/generic/time.cpp:906-927 | nothing narrows and nothing overflows in gmtime_r and timegm exactly for day numbers from -2^31 to 2^31-1-719468, and there the round trip holds |
| Calendar.GmtimeExact | options/ansi/generic/time.cpp:906-927 | on integers: the time of day is in range exactly for times that are not negative or fall on midnight; the date is right exactly for those of them whose day number is an int, and so is the weekday of an int day number |
| Calendar.GmtimeFields | options/ansi/generic/time.cpp:920-922 | hour, minute and second are in range up to sign, carry the sign of the time and add up with the days |
| Calendar.GmtimeWidth | options/ansi/generic/time.cpp:906-927 | nothing narrows and nothing overflows in gmtime_r exactly for day numbers from -2^31 to below 2146906432, and there date and time are right exactly for times that are not negative or fall on midnight |
| Calendar.BeforeEpoch | options/ansi/generic/time.cpp:915-924 | one second before the epoch is reported as second -1 of 1 January 1970 |
| Calendar.GmtimeYearday | options/ansi/generic/time.cpp:918-927 | tm_yday is the day of the year of the reported date plus exactly that error |
| Calendar.CivilWidth | options/ansi/generic/time.cpp:686-696 | no int intermediate overflows exactly below day 2146906432 |
| Calendar.DaysWidth | options/ansi/generic/time.cpp:1001-1006 | no int intermediate overflows exactly up to day 2^31-1-719468 |
| Environment.Environ.FindEnvironIndex | options/ansi/generic/environment.cpp:21-36 | the first entry of that name; entries without an equals sign are skipped |
| Environment.Environ.UpdateVector | options/ansi/generic/environment.cpp:50-63 | an environment installed from outside is copied and stays the same |
| Environment.Environ.AssignVariable | options/ansi/generic/environment.cpp:65-82 | the entry replaces the first one of its name if overwriting, is appended if there is none, and otherwise nothing changes; names stay unique, the vector stays terminated |
| Environment.Environ.UnassignVariable | options/ansi/generic/environment.cpp:84-100 | the first entry of the name is replaced by the last one |
| Environment.Environ.Getenv | options/ansi/generic/environment.cpp:106-115 | lookup in the map of variables |
| Environment.Environ.Putenv | options/ansi/generic/environment.cpp:125-138 | assigns the entry's name, or removes a name given without an equals sign |
| Environment.Environ.Setenv | options/ansi/generic/environment.cpp:148-167 | refuses exactly the names with an equals sign; without overwrite an existing variable stays, otherwise the variable gets the value and no other changes |
| Environment.Environ.Unsetenv | options/ansi/generic/environment.cpp:169-173 | with unique names exactly that variable goes; the name is gone exactly when it occurred at most once |
| Environment.Environ.Clearenv | options/ansi/generic/environment.cpp:175-180 | no variable is removed |
| Environment.RemoveEntry | options/ansi/generic/environment.cpp:92-96 | swap-with-last removal loses no other variable |
| Environment.RemovalComplete | options/ansi/generic/environment.cpp:84-100 | exactly when the name disappears |
| Environment.RepeatedName | options/ansi/generic/environment.cpp:84-100 | with a repeated name the second entry survives |
| Environment.Run | options/ansi/generic/environment.cpp:21-173 | any run of setenv, putenv, unsetenv and outside replacement acts as on a finite map |
| Environment.SetOnMap | options/ansi/generic/environment.cpp:65-82 | what setting does to each variable of the map a run acts on |
| QSort.Qsort | options/ansi/generic/stdlib.cpp:339-384 | whole records are permuted for any comparator and sorted for any preorder on records of that size |
| QSort.QuickSort | options/ansi/generic/stdlib.cpp:371-381 | the same for a range, with everything outside it unchanged |
| QSort.Partition | options/ansi/generic/stdlib.cpp:355-369 | records up to the pivot's place compare at most equal to it, the others greater |
| QSort.SwapIdx | options/ansi/generic/stdlib.cpp:347-353 | the byte loop exchanges two records and nothing else |
| QSort.CompareIdx | options/ansi/generic/stdlib.cpp:341-345 | compares the two records |
| QSort.Bsearch | options/ansi/generic/stdlib.cpp:316-337 | a found record compares equal; on records partitioned by the key, which need not be a record, one is found exactly when there is one |
| QSort.SortedPartitions | options/ansi/generic/stdlib.cpp:316-337 | records sorted by a preorder are partitioned by every record |
| Printers.Vsnprintf | options/ansi/generic/stdio.cpp:1861-1879 | the length of the whole output with strings cut at a NUL, and as much of it as fits, terminated |
| Printers.Vasprintf | options/ansi/generic/stdio.cpp:2437-2454 | the whole output, terminated |
| Printers.SameOutput | options/ansi/generic/stdio.cpp:717-722 | both report the same length exactly when no string holds a NUL, and then the bounded output is the truncated unbounded one |
| Printers.RenderedJoin | options/ansi/generic/stdio.cpp:745-767 | output is the pieces one after the other |
| Printers.CutLosesNothing | options/ansi/generic/stdio.cpp:665-671 | cutting strings at a NUL keeps the length of the output exactly when there is no NUL, and then the output itself |
| Printers.CutInstance | options/ansi/generic/stdio.cpp:667 | of a string with a NUL in the middle only the part before it is left |
| Printers.LimitedPrinter.AppendText | options/ansi/generic/stdio.cpp:665-671 | the string is cut at its first NUL; the first limit characters are kept and all are counted |
| Printers.ResizePrinter.AppendText | options/ansi/generic/stdio.cpp:755-767 | all characters are kept across reallocations |

## Left out

- FmodLong.Remainder: the operands are data of the format; 80-bit patterns whose leading bit contradicts their exponent, and the packing of the fields into words, are not modelled.
- RemPio2.Distill: the chunks are non-negative integers held exactly in doubles; how they are summed from the digits of 2/pi, the recompute loop and the final products are not modelled.
- FileIO.AbstractFile.Read: the buffer is allocated with the stream and not on first use, and push-back has its own array; both are invisible to callers. The field `__io_mode` is not modelled.
- FileIO.AbstractFile.SavePos: the log message of a failed seek is not modelled.
- Stdio.LookAhead: after a failed read the source tests a count that was never set (`stdio.cpp:1826-1840`); the model returns 0 there.
- Stdio.Consume: the same.
- Stdio.Fwrite: requires that no read-ahead is unread, as section 7.21.5.3 paragraph 7 of C11 demands of the caller.
- QSort.Qsort: the comparator is a function of the two records; one that gives different answers for the same records is not modelled.
- Printers.LimitedPrinter.AppendText: the destination cap of the three-argument form and wide characters are not modelled.
- Environment.Environ.Putenv: strings are values; a caller that later changes the string it passed is not modelled.
- fma with non-finite operands is the processor's x*y+z; exception flags are not modelled.
- Streams opened for append, where a write ignores the position of the descriptor.
- Opening, closing and reopening streams, orientation, locks and the global list of streams: plumbing around the engine.
- The formatting and scanning languages of printf and scanf: most of them live in another library.
- Local time, time zone files and `mktime`: they depend on files and on global state.
- The other mathematical functions: polynomial approximations that need real analysis.
