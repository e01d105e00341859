# Verified models of the QuickJS support libraries

This project models the hard cores of the C and JavaScript support libraries in `libquickjs/` and
proves what they are for. Every `.dfy` file is one module; `dafny verify dfyconfig.toml` checks them
all. Code that works by changing things in place is modelled in place, as classes, arrays and loops,
and is proved against a value-level specification about which the theorems are stated.

## Regular expressions (`libquickjs/libregexp.c`)

The end-to-end theorem is `RegexpEngine.Test`: compiling any pattern and running the byte code on any
subject gives the first match, with its captures, that section 22.2.2 of ECMA-262 prescribes, or no
match if there is none; and the run halts. It is put together from these layers.

- `RegexpInput`, `RegexpSyntax`: subjects of 8- or 16-bit units with or without surrogate pairs, and
  patterns as trees (classes, sequence, alternation, greedy, lazy and counted repetition, captures,
  back references, lookahead, lookbehind, anchors, word boundaries).
- `RegexpText`: the subject as a sequence of characters, and what character tests, positions and back references mean
  on it.
- `RegexpMatcher`: the reference meaning. `Match` gives all the ways to match in order of priority, as
  the continuation-passing matchers of section 22.2.2 try them. It knows nothing of byte code.
- `RegexpBytecode`, `RegexpCompiler`: the instructions, their bytes, and the instruction sequence that
  the parser leaves behind for a pattern.
- `RegexpEmitter`: the parser's emission as a class over one growing byte buffer. It inserts bytes before
  code already emitted, patches relative jumps, moves terms to the front inside lookbehind, scans the
  emitted bytes of an atom and overwrites register operands in a final linear pass.
- `RegexpMachine`: a machine in which every choice point holds a copy of all captures and registers.
- `RegexpRegisters`, `RegexpAnalysis`, `RegexpClasses`, `RegexpRepetition`, `RegexpTraces`,
  `RegexpRelation`, `RegexpLeaves`, `RegexpStraight`, `RegexpLayout`, `RegexpCorrectness`,
  `RegexpProgram`: the proof that this machine, on compiled code, explores exactly the list `Match`.
- `RegexpUndoLog`, `RegexpBacktracker`: the executor of the source, one loop over a flat array that mixes
  frames with an undo log, refines the snapshot machine step by step.
- `RegexpEngine`: compile, execute, and both together.
- `RegexpFolding`: case-insensitive classes from the raw set, with `CaseFolding`.

The parts of `Match` and of the executor that read the subject agree on edge cases such as reading in
the middle of a surrogate pair, because every reachable position is a character boundary.

## Numbers and text (`libquickjs/dtoa.c`)

The end-to-end theorem is `DtoaPrint.Reread`: printing any finite float64 other than zero in free format, in
any radix from 2 to 36 and any exponent style, and reading the text again gives the same 64 bits.

- `DtoaRounding`, `DtoaNearest`: powers, the three rounding modes on reals, and what "nearest, ties to even"
  means for float64 (section 4.3.1 of IEEE 754-2019).
- `DtoaDivision`, `DtoaLimbs`, `DtoaBits`, `DtoaBignum`: limbs in arrays, division by a precomputed reciprocal,
  in-place shifts and rounding by looking at bits.
- `DtoaScaling`, `DtoaConvert`, `DtoaFloat`: scaling by powers of the radix through chains of floor divisions
  with one sticky bit, and rounding to an integer or to a float64 with subnormals.
- `DtoaFree`, `DtoaSearch`, `DtoaLogarithm`, `DtoaBounds`: why enough digits convert back, the search for fewer, the
  fixed-point logarithm that starts it, and the proof that its table is accurate enough.
- `DtoaCapacity`: the buffers of 52 limbs hold every product of the search, for every float64 and radix.
- `DtoaShortest`: when no shorter numeral means the same float64.
- `DtoaText`, `DtoaIntegers`, `DtoaRead`, `DtoaParse`, `DtoaDouble`, `DtoaStrings`, `DtoaPrint`: digits as text,
  integers, the reader and the printer.

## Characters (`libquickjs/libunicode.c`, `libquickjs/cutils.h`)

- `CharSets`: sets as sorted endpoints; union, intersection, difference, complement, removal of overlaps.
- `CaseFolding`: the folded image of a set equals the set of folded characters.
- `PropertyTables`, `PropertyBuilder`: run-length tables read through an index or from the start, and written by the
  generator.
- `Normalization`: canonical ordering (section 3.11 of the Unicode Standard) and Hangul (section 3.12).
- `Composition`: full decomposition, that composing leaves nothing to compose, and when it keeps
  canonical equivalence. It does not always: behind a
  syllable without a trailing letter, U+11A7 is swallowed (`FillerLost`), which `Normalize` states as the exact
  condition.
- `Transcoding`, `Surrogates`: UTF-8 and UTF-16 with unpaired surrogates.
- `Introsort`: `rqsort`, generic in the element type and the comparison.

## Iterator.zip (`libquickjs/builtin-iterator-zip.js`)

`IteratorZip` models the helper object as a class whose iterators may do anything: what they reply is any
function of everything that happened so far, and before every reply they may call the helper's own `next` and
`return` as often as they like. Such calls are made and logged; the proof shows that they always meet the states
`Execute` or `Complete`, change nothing and end in the TypeError or in `done`.

## Model

| member | source | states |
|---|---|---|
| `RegexpEngine.Test` | libquickjs/libregexp.c:2560-2655 | compile then run: the result is the first way to match of the ECMA-262 matcher, searched from the start index, with all its captures, or no match when that list is empty; a pattern is rejected exactly when it has too many captures, ranges, live registers or bytes of finished code |
| `RegexpEngine.Compile` | libquickjs/libregexp.c:2592-2635 | succeeds exactly on the patterns within the limits, and then yields the bytes of the specified program with registers filled in, its capture count and the peak number of live registers |
| `RegexpEngine.Exec` | libquickjs/libregexp.c:3369-3407 | on the code of a pattern, terminates; returns whether the ECMA-262 matcher finds a match and leaves the captures of the first one |
| `RegexpEngine.Start` | libquickjs/libregexp.c:3394-3400 | the start index is moved off the middle of a surrogate pair, to the nearest boundary before it |
| `RegexpEngine.ProgramPlan` | libquickjs/libregexp.c:2480-2543 | the register pass on any whole program never underflows, ends at depth zero, and turns the emitted code into the code with nested registers |
| `RegexpProgram.RunsAnswer` | libquickjs/libregexp.c:2815-3364 | every run of compiled code on a finite subject halts, and its answer is the head of the prioritised list of matches |
| `RegexpProgram.WholeMeans` | libquickjs/libregexp.c:2592-2601 | the emitted prefix loop makes the matcher search: the matches at the start position, then those at each later character |
| `RegexpCorrectness.CodeCorrect` | libquickjs/libregexp.c:1872-2478 | for every pattern, direction, capture base, register base and address: running its code from any related state comes out, in order, exactly in the states the matcher lists, changing only its own captures and registers |
| `RegexpCorrectness.LookCorrect` | libquickjs/libregexp.c:1981-2013 | lookahead and lookbehind, positive and negative: first inner match only, captures kept or undone, position restored |
| `RegexpCorrectness.AltCorrect` | libquickjs/libregexp.c:2438-2478 | the inserted split and patched goto try all of the left side before the right side |
| `RegexpCorrectness.CatCorrect` | libquickjs/libregexp.c:2404-2435 | terms emitted in text order, or in reverse for lookbehind, run as the sequence the matcher prescribes for the direction |
| `RegexpCorrectness.GroupCorrect` | libquickjs/libregexp.c:2035-2060 | the two saves, swapped when going backward, set the capture to the matched span |
| `RegexpCorrectness.QuantCorrect` | libquickjs/libregexp.c:2289-2391 | each of the loop shapes (none, optional, star, plus, counted, with and without position check and capture reset) is RepeatMatcher |
| `RegexpCorrectness.RoundCorrect` | libquickjs/libregexp.c:2289-2311 | a round explores the atom from reset captures, also when the reset was left out because the atom sets all its captures |
| `RegexpCorrectness.UncheckedMoves` | libquickjs/libregexp.c:2304-2330 | when the position check is left out, every way through the atom moves the position |
| `RegexpLeaves.LeafCorrect` | libquickjs/libregexp.c:2967-3058 | atoms, assertions and back references, forward and bracketed by backward steps, run as the matcher prescribes |
| `RegexpRepetition.FiniteSuffices` | libquickjs/libregexp.c:2356-2391 | a loop without upper bound equals one bounded by its minimum plus the distance to the end of the subject, so a 31-bit counter stands for infinity |
| `RegexpRepetition.RoundIsTails` | libquickjs/libregexp.c:3120-3168 | a round of RepeatMatcher is the concatenation of what follows each way through the atom, empty for ways that do not move once the minimum is met |
| `RegexpAnalysis.ScanFinds` | libquickjs/libregexp.c:1581-1655 | the linear scan of an atom's code computes exactly two properties of the pattern: it surely advances, and it surely sets all its captures |
| `RegexpAnalysis.AdvancesMoves` | libquickjs/libregexp.c:1578-1583 | if a pattern surely advances, every match of it moves the position |
| `RegexpAnalysis.SetsInRange` | libquickjs/libregexp.c:1584-1655 | the captures a straight pattern sets lie in its own capture range |
| `RegexpStraight.SimpleRuns` | libquickjs/libregexp.c:1584-1655 | a pattern without choices runs straight to at most one exit and leaves each of its captures set, so its captures need no reset |
| `RegexpClasses.ClassExact` | libquickjs/libregexp.c:1240-1274 | the instruction written for a normalised set, empty, 16-bit with 0xffff as infinity or 32-bit, accepts a code point exactly when it lies in the set |
| `RegexpClasses.SearchExact` | libquickjs/libregexp.c:3290-3312 | the binary search over closed ranges finds a value exactly when some range holds it |
| `RegexpClasses.ClassEncodable` | libquickjs/libregexp.c:1246-1270 | the bounds of every emitted class fit their 16- or 32-bit cells |
| `RegexpBytecode.DecodeEncode` | libquickjs/libregexp-opcode.h:27-71 | reading an instruction back from its bytes at any address gives that instruction |
| `RegexpBytecode.EncodeAppend` | libquickjs/libregexp.c:635-690 | the bytes of a concatenation are the concatenation of the bytes |
| `RegexpRegisters.CodeAllocates` | libquickjs/libregexp.c:2480-2543 | on the code of any pattern, at any depth and in either direction, the linear pass is balanced and gives each loop or check the register of its matching set, distinct from those of the enclosing live loops |
| `RegexpRegisters.BelowPeak` | libquickjs/libregexp.c:2502-2506 | every register assigned lies below the peak that is returned |
| `RegexpEmitter.Emitter.Emit` | libquickjs/libregexp.c:1872-2478 | appends exactly the bytes of the specified code and advances the capture count, or fails exactly on too many captures or ranges |
| `RegexpEmitter.Emitter.Quantify` | libquickjs/libregexp.c:2289-2391 | inserting before and appending after the atom's bytes turns them into the bytes of the specified loop |
| `RegexpEmitter.Emitter.WrapLoop` | libquickjs/libregexp.c:2313-2391 | the bytes of a round become the bytes of the loop around it, jumps included |
| `RegexpEmitter.Emitter.MoveToFront` | libquickjs/libregexp.c:2417-2431 | the insertion, copy and truncation move the last term before the earlier ones |
| `RegexpEmitter.Emitter.ScanAtom` | libquickjs/libregexp.c:1584-1655 | the byte-level scan finds what the scan of the instructions finds |
| `RegexpEmitter.Emitter.EmitRange` | libquickjs/libregexp.c:1240-1274 | writes the bytes of the class instruction, or fails exactly when there are 65535 ranges or more |
| `RegexpEmitter.Emitter.AllocateRegisters` | libquickjs/libregexp.c:2482-2543 | overwriting operand bytes in one pass leaves the bytes of the program with its registers, and returns the peak, or -1 exactly when the peak exceeds 255 |
| `RegexpUndoLog.SaveSkipped` | libquickjs/libregexp.c:2855-2876 | a write already logged since the last frame need not be logged again: unwinding gives the same snapshots |
| `RegexpUndoLog.Save` | libquickjs/libregexp.c:2846-2854 | logging the old value before a write keeps what unwinding restores in every frame |
| `RegexpUndoLog.PushFrame` | libquickjs/libregexp.c:2986-3007 | a new frame restores the captures, registers and position at the time it was pushed |
| `RegexpUndoLog.Compact` | libquickjs/libregexp.c:2915-2947 | dropping the frames of a successful lookahead while keeping their undo entries leaves what the frames below restore unchanged |
| `RegexpUndoLog.UnwindOnce` | libquickjs/libregexp.c:2893-2914 | undoing the entries above the top frame gives its snapshot, and the rest of the stack denotes the frames below it |
| `RegexpBacktracker.Backtracker.Exec` | libquickjs/libregexp.c:2815-3364 | the executor's loop ends exactly when the snapshot machine halts, with the same answer and captures |
| `RegexpBacktracker.Backtracker.Execute` | libquickjs/libregexp.c:2884-3363 | one turn of the loop is one step of the snapshot machine |
| `RegexpBacktracker.Backtracker.NoMatch` | libquickjs/libregexp.c:2893-2914 | popping to the last choice point restores its snapshot; failing lookaheads are popped through |
| `RegexpBacktracker.Backtracker.PopAhead` | libquickjs/libregexp.c:2915-2947 | positive lookahead success drops its inner choice points, keeps the captures and restores the position |
| `RegexpBacktracker.Backtracker.PopNegative` | libquickjs/libregexp.c:2948-2966 | negative lookahead match restores everything held when it was entered, then fails |
| `RegexpBacktracker.Backtracker.SaveCapture` | libquickjs/libregexp.c:2846-2854 | the write happens and every frame still restores its snapshot |
| `RegexpBacktracker.Backtracker.SaveCaptureCheck` | libquickjs/libregexp.c:2855-2876 | the same when the search of the log finds the slot and skips the save |
| `RegexpBacktracker.Backtracker.PushChoice` | libquickjs/libregexp.c:2986-3007 | adds one frame with the current snapshot |
| `RegexpBacktracker.Backtracker.Find` | libquickjs/libregexp.c:3272-3350 | the index loop over a class agrees with the recursive search, never leaving the table |
| `RegexpBacktracker.Backtracker.Compare` | libquickjs/libregexp.c:3237-3268 | in either direction: the position up to which the text repeats the capture character by character under folding, or none if no text does |
| `RegexpText.RepeatForwardIs` | libquickjs/libregexp.c:3233-3251 | a back reference ends at q exactly if q is a boundary and the characters up to q are as many as those of the capture and equal to them one by one under folding |
| `RegexpText.RepeatBackwardIs` | libquickjs/libregexp.c:3252-3266 | the same for the characters before the position |
| `RegexpText.BackReferenceIs` | libquickjs/libregexp.c:3226-3270 | the first capture of the list that took part decides; if none did, the empty text matches |
| `RegexpText.OneCharIs` | libquickjs/libregexp.c:2967-2985 | a character test moves over exactly one character that it accepts, in either direction |
| `RegexpText.PositionsAre` | libquickjs/libregexp.c:3180-3215 | line and word tests look at the last character before the position and the first after it |
| `RegexpText.CharsAreUnits` | libquickjs/libregexp.c:2662-2745 | the characters read stand for exactly the units of the subject |
| `RegexpText.NoPairApart` | libquickjs/libregexp.c:2662-2745 | no surrogate pair is read as two characters |
| `RegexpTraces.StepUnder` | libquickjs/libregexp.c:2815-3364 | a step does not depend on the frames below those it pushed |
| `DtoaPrint.Reread` | libquickjs/dtoa.c:1107-1317 | print in free format, then read: the bits come back, for every finite float64 but zero, radix from 2 to 36 and exponent style, with the 52-limb buffers of the source |
| `DtoaPrint.PrintNumber` | libquickjs/dtoa.c:1107-1317 | the text printed is that of a numeral whose exact value rounds to the number, which the reader reads in full, with the fewest digits (but for powers of two that are not subnormal), and with an exponent exactly where the style asks for it |
| `DtoaPrint.PrintedPresented` | libquickjs/dtoa.c:1278-1284 | in style Auto an exponent is printed exactly for values below radix^-6 or from radix^(P_max + 4) on, which is 10^21 in decimal |
| `DtoaPrint.SmallShortest` | libquickjs/dtoa.c:1167-1176 | a small integer printed in full has no shorter numeral, counted without its trailing zeros |
| `DtoaPrint.Layout` | libquickjs/dtoa.c:1277-1311 | digits, point, zeros and exponent come out as the text of one numeral, in all three layouts |
| `DtoaPrint.PrintedMeans` | libquickjs/dtoa.c:1277-1311 | each layout of P digits and exponent E denotes exactly mant * radix^(E - P) |
| `DtoaPrint.PrintedRead` | libquickjs/dtoa.c:726-733 | whatever digits of a printed numeral the reader leaves out are zeros |
| `DtoaStrings.ReadNumber` | libquickjs/dtoa.c:1353-1615 | a numeral with point and exponent, of any length, becomes the float64 nearest to its value: no other is closer, of two the even one, subnormals included, infinity standing at 2^1024; in radixes that are not powers of two, digits beyond the limit count as zeros |
| `DtoaStrings.KeptClose` | libquickjs/dtoa.c:1506-1510 | what the limit on digits cuts off is less than a unit of the last digit that is read |
| `DtoaStrings.KeptSame` | libquickjs/dtoa.c:726-733 | nothing is cut off if the digits beyond the limit are zeros |
| `DtoaDouble.RoundsToNearest` | libquickjs/dtoa.c:1590-1606 | the bits that are packed stand for the float64 at the least distance, and are even if two are as close |
| `DtoaFloat.RoundedTotal` | libquickjs/dtoa.c:968-1000 | every positive number rounds to something, so the contracts about rounding are never empty |
| `DtoaStrings.ConvertPlain` | libquickjs/dtoa.c:1581-1597 | the early exits for large and small exponents give what rounding would give |
| `DtoaStrings.ConvertBinary` | libquickjs/dtoa.c:1506-1580 | digits beyond the limit act as a sticky bit and still round correctly |
| `DtoaStrings.ScaledSticky` | libquickjs/dtoa.c:1506-1510 | what is read with its lowest bit set is the exact value cut to an integer with a sticky bit, with 55 bits in front |
| `DtoaSearch.FindDigits` | libquickjs/dtoa.c:1181-1235 | the search ends with digits, the last not zero, that convert back to exactly (m, e), the unchecked first try included, and stops only at one digit or where the best numeral with one digit less means another float64; except for powers of two that are not subnormal, no shorter numeral means this one |
| `DtoaShortest.BestFails` | libquickjs/dtoa.c:1192-1232 | if the number rounded to p - 1 digits does not convert back, no numeral with fewer than p digits does, at any exponent, for all numbers that round evenly from both sides |
| `DtoaShortest.BestNearest` | libquickjs/dtoa.c:1197-1206 | no numeral with at most p digits is closer to the number than the attempt with p digits, E raised or not |
| `DtoaShortest.CloserRounds` | libquickjs/dtoa.c:1215-1221 | what is at least as close to a float64 as a number that rounds to it rounds to it |
| `DtoaCapacity.SearchFits` | libquickjs/dtoa.c:63 | 52 limbs hold every product that the search computes, for every exponent and radix |
| `DtoaStrings.ScaleFits` | libquickjs/dtoa.c:63 | 52 limbs hold the digits read and every product that scaling them computes |
| `DtoaSearch.Attempt` | libquickjs/dtoa.c:1194-1206 | E is raised at most once, and the mantissa then has exactly P digits |
| `DtoaSearch.FirstAttempt` | libquickjs/dtoa.c:1212-1214 | P_max digits always convert back |
| `DtoaSearch.StripZeros` | libquickjs/dtoa.c:1207-1211 | removing trailing zeros keeps the value and ends |
| `DtoaSearch.MaxDigitsEnough` | libquickjs/dtoa.c:721-724 | every entry of the table of digits has radix^(P-1) >= 2^53 and 2 * radix^P below 2^64 |
| `DtoaFree.CarriedTry` | libquickjs/dtoa.c:1198-1206 | if E had to be raised, the result still rounds back, also next to a power of two |
| `DtoaFree.CarriedSize` | libquickjs/dtoa.c:1203-1206 | after raising E once the mantissa fits |
| `DtoaFree.NearRounds` | libquickjs/dtoa.c:1215-1221 | any number less than half a unit in the last place away, and a quarter below a power of two, rounds to the float |
| `DtoaLogarithm.LogIsExact` | libquickjs/dtoa.c:472-487 | the fixed-point product is floor(a / log2(radix)) for every radix and -2048 <= a <= 2047 |
| `DtoaLogarithm.Decides` | libquickjs/dtoa.c:456-471 | between neighbouring fractions the approximation compares as the logarithm does |
| `DtoaLogarithm.TableCertified` | libquickjs/dtoa.c:460-470 | for every radix the entry of the table and log2(radix) lie between the same two neighbouring fractions |
| `DtoaBounds.LogBounds` | libquickjs/dtoa.c:456-470 | rational bounds of log2(radix) with 24 bits, as inequalities between powers, for every radix that is not a power of two |
| `DtoaStrings.ExponentsBeyond` | libquickjs/dtoa.c:735-751 | at the entries of the exponent tables the powers of the radix are at least 2^1024 and at most 2^-1075 |
| `DtoaNearest.RoundedIsNearest` | libquickjs/dtoa.c:968-1000 | no float64 is closer to the exact value than the result, and of two as close the result is even |
| `DtoaNearest.RoundedIsFloat` | libquickjs/dtoa.c:968-1000 | the result is a float64 |
| `DtoaFloat.MulPowRoundToFloat` | libquickjs/dtoa.c:1002-1012 | a * radix^f rounded to float64 in the given mode, subnormals included |
| `DtoaFloat.RoundToFloat` | libquickjs/dtoa.c:968-1000 | a / 2^offset rounded to 53 bits or to a multiple of 2^-1074, with the carry out of the mantissa |
| `DtoaFloat.RoundedSticky` | libquickjs/dtoa.c:923-951 | 55 bits and a sticky bit round as the exact number does |
| `DtoaConvert.MulPowRound` | libquickjs/dtoa.c:957-966 | round(m * 2^e * radix^f) in all three modes, for any integer e and f |
| `DtoaConvert.MulPow` | libquickjs/dtoa.c:890-955 | v * radix^f * 2^offset, exactly or cut to an integer with a sticky bit and enough bits to round |
| `DtoaScaling.DivPowers` | libquickjs/dtoa.c:934-951 | the chain of floor divisions is one floor division, and the or of the remainders tells whether it is exact |
| `DtoaScaling.MulPowers` | libquickjs/dtoa.c:900-915 | limb-sized multiplications make up the power |
| `DtoaScaling.PowSmall` | libquickjs/dtoa.c:241-268 | square and multiply computes the power |
| `DtoaScaling.DigitsFit` | libquickjs/dtoa.c:700-706 | as many digits of an odd radix as the table says fit in a limb |
| `DtoaRounding.StickyRounds` | libquickjs/dtoa.c:926-951 | two bits below the rounding position suffice, in all three modes |
| `DtoaBignum.Bignum.ShiftRound` | libquickjs/dtoa.c:311-397 | the new value is old / 2^shift rounded in the mode, for positive, zero and negative shifts |
| `DtoaBignum.Bignum.AnyBelow` | libquickjs/dtoa.c:350-360 | the or of the bits below tells whether the remainder is zero |
| `DtoaBignum.Bignum.Renormalise` | libquickjs/dtoa.c:213-217 | the value stays and the top limb is not zero |
| `DtoaBits.RoundByBits` | libquickjs/dtoa.c:335-370 | rounding decided by three bits is rounding of the quotient |
| `DtoaLimbs.DivNormalised` | libquickjs/dtoa.c:185-198 | in place, quotient and remainder by the unnormalised divisor, for arrays of any length |
| `DtoaLimbs.DivSmall` | libquickjs/dtoa.c:136-147 | long division in place |
| `DtoaLimbs.MulSmall` | libquickjs/dtoa.c:91-103 | product and carry in place |
| `DtoaLimbs.ShiftLeft` | libquickjs/dtoa.c:167-183 | shifted value and the bits shifted out |
| `DtoaLimbs.ShiftRight` | libquickjs/dtoa.c:149-165 | shifted value and remainder |
| `DtoaLimbs.AddSmall` | libquickjs/dtoa.c:74-88 | sum and carry, stopping early |
| `DtoaDivision.DivideTwo` | libquickjs/dtoa.c:105-134 | for every divisor with its top bit set and a1 below it: the true quotient and remainder, with all wrap-around |
| `DtoaDivision.GuessClose` | libquickjs/dtoa.c:114-125 | the guess from the reciprocal is the quotient or one less |
| `DtoaText.PrintDigits` | libquickjs/dtoa.c:844-888 | the last n digits of the number, with the point in its place |
| `DtoaText.TextRoundTrip` | libquickjs/dtoa.c:844-888 | reading the digits printed gives the number back modulo radix^n |
| `DtoaText.NumberRoundTrip` | libquickjs/dtoa.c:1319-1329 | printing the number read gives the digits back in lower case |
| `DtoaText.RadixBaseIs` | libquickjs/dtoa.c:708-718 | every entry of the table of limb bases is the power it stands for |
| `DtoaRead.Take` | libquickjs/dtoa.c:1478-1491 | one more digit in the limb loop keeps the number of the digits read, and what is left out is remembered |
| `DtoaRead.MulAdd` | libquickjs/dtoa.c:1331-1350 | r * base + x, where base 0 stands for 2^32 |
| `DtoaRead.PrintedReads` | libquickjs/dtoa.c:1461-1495 | reading the digits printed gives the bignum back |
| `DtoaIntegers.U64ToText` | libquickjs/dtoa.c:615-644 | the decimal digits without leading zeros |
| `DtoaIntegers.U64ToTextRadix` | libquickjs/dtoa.c:657-688 | the digits in any radix without leading zeros |
| `DtoaIntegers.CanonicalReads` | libquickjs/dtoa.c:657-688 | those digits read back as the number and start with zero only for zero |
| `DtoaDouble.PackUnpack` | libquickjs/dtoa.c:1590-1609 | packing what was unpacked gives the bits back, subnormals included |
| `DtoaDouble.UnpackValue` | libquickjs/dtoa.c:1122-1165 | the normalised mantissa and exponent have the value of the bits |
| `DtoaParse.ReadSignificant` | libquickjs/dtoa.c:1440-1495 | the loop over digits and point reads the first digits into the number and remembers whether the others are zero |
| `DtoaParse.ReadExponent` | libquickjs/dtoa.c:1512-1562 | on any text: whether there is an exponent, its digits as far as they go, with any sign or none, a failure without digits, and overflow exactly if the digits but the last exceed the limit |
| `CharSets.CharRange.Operate` | libquickjs/libunicode.c:455-508 | union, intersection, symmetric difference and difference of the sets, as strictly increasing endpoints taken from the arguments |
| `CharSets.CharRange.Compress` | libquickjs/libunicode.c:425-452 | in place: the same set in normal form |
| `CharSets.CharRange.Invert` | libquickjs/libunicode.c:522-534 | the complement below UINT32_MAX |
| `CharSets.ComplementTwice` | libquickjs/libunicode.c:522-534 | complementing twice gives a normal form back |
| `CharSets.NormalUnique` | libquickjs/libunicode.c:425-452 | two normal forms of one set are equal |
| `CharSets.MergeNext` | libquickjs/libunicode.c:463-505 | adding a point only when membership changes keeps the set described so far |
| `CharSets.CharRange.SortAndMerge` | libquickjs/libunicode.c:1458-1492 | overlapping intervals in any order become the normal form of their union |
| `CaseFolding.CanonicalizeSet` | libquickjs/libunicode.c:1494-1578 | the set becomes exactly the image of its characters under folding |
| `RegexpFolding.FoldClass` | libquickjs/libregexp.c:1469-1500 | a class that ignores case accepts c exactly if some member of the raw set folds to what c folds to, and a negated one exactly if none does |
| `CaseFolding.FoldAll` | libquickjs/libunicode.c:1521-1558 | the forward scan finds the run of every character without running past the table, and the intervals cover exactly the folded characters |
| `CaseFolding.Canonicalize` | libquickjs/libunicode.c:227-262 | the binary search folds by the entry the character lies in |
| `CaseFolding.CollectMask` | libquickjs/libunicode.c:1388-1449 | the mask holds exactly the characters that its rule lists |
| `CaseFolding.OutsideMask` | libquickjs/libunicode.c:60-152 | a character outside the mask is fixed, for all fourteen kinds of runs |
| `CaseFolding.PairsFold` | libquickjs/libunicode.c:74-92 | the two characters of a pair, and the three of a triple, fold to the same one of them, which is fixed |
| `CaseFolding.PairsConvert` | libquickjs/libunicode.c:74-92 | within pairs and triples converting after upper or lower case gives what converting gives |
| `PropertyTables.IsInTable` | libquickjs/libunicode.c:305-338 | through a consistent index: member exactly when reading from the start says so |
| `PropertyTables.IndexPosition` | libquickjs/libunicode.c:270-303 | the block found starts at or before the character, and nothing is found exactly past the table |
| `PropertyTables.LeadsMember` | libquickjs/libunicode.c:305-338 | starting in the middle gives the same answer from there on |
| `PropertyTables.CollectProperty` | libquickjs/libunicode.c:1340-1377 | the intervals built by decoding from the start hold the same characters |
| `PropertyBuilder.Lookup` | libquickjs/unicode_gen.c:1750-1850 | a table and index built from a property answer as the property does, for every character |
| `PropertyBuilder.BuildTable` | libquickjs/unicode_gen.c:1777-1836 | the bytes written for runs read back as those runs, and the index written beside them is consistent |
| `PropertyBuilder.RunsOf` | libquickjs/unicode_gen.c:1761-1774 | the runs describe exactly the characters with the property |
| `PropertyBuilder.ItemReads` | libquickjs/libunicode.c:319-336 | each of the four forms of an item reads back as the run lengths it was written for |
| `Normalization.SortMarks` | libquickjs/libunicode.c:976-1003 | in place: the text in canonical order |
| `Normalization.ReorderFacts` | libquickjs/libunicode.c:976-1003 | a permutation, ordered, and stable within every class and around starters |
| `Normalization.OrderedUnique` | libquickjs/libunicode.c:976-1003 | an ordered text is determined by its classes |
| `Normalization.ReorderOrdered` | libquickjs/libunicode.c:976-1003 | idempotent, and ordered texts stay as they are |
| `Normalization.ComposeAll` | libquickjs/libunicode.c:1093-1117 | the loop in place computes `Compose`, one step for each character |
| `Normalization.SyllablesCompose` | libquickjs/libunicode.c:1093-1117 | the letters of any Hangul syllables compose to those syllables |
| `Composition.Normalize` | libquickjs/libunicode.c:1049-1120 | NFD and NFKD are the ordered full decomposition; NFC and NFKC give a text in which nothing is left to compose, which is canonically equivalent exactly if no leading letter, vowel and U+11A7 stand in a row in that decomposition, and leave any text of Hangul syllables unchanged |
| `Composition.ComposeEquivalent` | libquickjs/libunicode.c:1093-1117 | composing an ordered full decomposition and decomposing and ordering again gives it back, if and only if nothing is swallowed |
| `Composition.ComposeMaximal` | libquickjs/libunicode.c:1093-1117 | in the composed text no character has an unblocked starter before it with which it would compose, by the table or the rules for Hangul |
| `Composition.StepMaximal` | libquickjs/libunicode.c:1096-1116 | one step leaves nothing behind that could be composed, also with the new composite |
| `Composition.PairComposes` | libquickjs/libunicode.c:1045 | a starter and a character behind it compose to what the table says |
| `Composition.StepKeeps` | libquickjs/libunicode.c:1093-1117 | one step adds a character to the decomposition of what is composed so far, up to order between different classes |
| `Composition.PairKeeps` | libquickjs/libunicode.c:1033-1047 | a composite decomposes to what its parts decompose to |
| `Composition.FillerLost` | libquickjs/libunicode.c:1040-1043 | the input on which equivalence fails |
| `Normalization.LettersCompose` | libquickjs/libunicode.c:1033-1047 | decomposing a syllable and composing pairwise gives it back |
| `Transcoding.RoundTrip` | libquickjs/cutils.h:1130-1238 | every sequence of 16-bit units survives encoding and decoding |
| `Transcoding.DecodeEncoded` | libquickjs/cutils.h:906-1040 | decoding an encoded code point gives it back, whatever follows |
| `Transcoding.DecodeExact` | libquickjs/cutils.h:961-1052 | bytes decode to a code point exactly if they begin with its encoding, and one byte becomes an error exactly if they begin with none |
| `Transcoding.ErrorExact` | libquickjs/cutils.h:1054-1092 | errors are reported exactly if the bytes do not encode any sequence of code points |
| `Transcoding.EncodedText` | libquickjs/cutils.h:1130-1154 | the encoding of code points decodes to their units, and the flags tell how large they are |
| `Transcoding.PointsAre` | libquickjs/cutils.h:1200-1238 | units are encoded as the UTF-8 of code points that stand for them, with every surrogate pair joined |
| `Transcoding.PointsUnique` | libquickjs/cutils.h:1200-1238 | there is only one such way to read units |
| `Transcoding.EncodeBuffer` | libquickjs/cutils.h:1200-1238 | the full length is returned whatever the room; the longest run of whole code points and a zero byte are stored |
| `Transcoding.DecodeBuffer` | libquickjs/cutils.h:1130-1154 | the full length is returned whatever the room; as much as fits is stored and nothing else is touched |
| `Transcoding.Scan` | libquickjs/cutils.h:1054-1092 | the number of units is what decoding stores, malformed or not; the flags say what occurs |
| `Introsort.Sort` | libquickjs/cutils.h:1422-1539 | a sorted permutation for every total preorder and length; the stack of 50 entries never overflows |
| `Introsort.SortSegment` | libquickjs/cutils.h:1440-1537 | one segment is sorted but for the parts pushed; depths exceed the number of entries below them |
| `Introsort.Partition` | libquickjs/cutils.h:1446-1516 | less than, equal to and greater than the pivot, in place |
| `Introsort.HeapSort` | libquickjs/cutils.h:1380-1412 | a sorted permutation of the segment |
| `Introsort.PlacedMoved` | libquickjs/cutils.h:1436-1537 | rearranging a pending segment keeps every other pair in order |
| `IteratorZip.Run` | libquickjs/builtin-iterator-zip.js:105-208 | over any calls from outside and any iterators, which may call the helper again at any time: every slot is used in order (next, done, value), nothing happens to it after it was done, threw or was closed, every call from inside is refused, and the InternalError is unreachable |
| `IteratorZip.Zipper.NextResult` | libquickjs/builtin-iterator-zip.js:113-186 | what next leads to is told by what it did: the value thrown by next, done or value; the TypeError exactly if a strict zip had a slot done and another not; for a shortest zip with a slot done the first truthy failure to close, or done; done if no slot gave a value; else the values or the pads; slots are asked from the first to the last and given up exactly where the source closes them; the invariant of suspended zips is kept, and while the helper is running or complete a call changes nothing |
| `IteratorZip.Zipper.ReturnResult` | libquickjs/builtin-iterator-zip.js:187-207 | every open slot is closed exactly once, from the last to the first, and the first truthy failure is thrown; the others are not touched; at any moment at which the helper is running or complete, a call changes nothing |
| `IteratorZip.Zipper.CloseAll` | libquickjs/builtin-iterator-zip.js:15-24 | gives up every open slot and then closes it, once, from the last to the first, and reports the first truthy failure; the state stays, whatever is called from inside |
| `IteratorZip.Zipper.Reenter` | libquickjs/builtin-iterator-zip.js:113-131 | calls that an iterator makes while it runs are refused and change no slot |
| `IteratorZip.ClosedAtMostOnce` | libquickjs/builtin-iterator-zip.js:6-24 | a proper trace has at most one close, at its end |

## Left out

- Pattern text: escapes, group names, modifiers and Annex B syntax; patterns enter as trees, so the loops
  of the alternative and disjunction parsers appear as recursion on the left operand.
- String alternatives inside v-flag classes.
- RegexpEngine.Test: `lre_canonicalize` is a parameter that maps code points to code points, and the set of a
  case-insensitive class enters already folded; `RegexpFolding` and `CaseFolding` connect both with the raw set.
- The 8-byte header and the group-name trailer of the byte code.
- Allocation failure and timeouts; the limit of INT32_MAX / 2 bytes of code is modelled.
- RegexpEngine.Compile: the limit on the size of the code is tested on the finished code; the source tests it
  whenever the buffer grows, on sizes that include bytes inserted for a moment, so next to the limit it may refuse more.
- A repetition `{n,}` is proved for subjects of at most INT32_MAX - n units, which the
  source assumes of every subject; for larger ones the 31-bit counter would run out.
- DtoaPrint.PrintNumber: the buffer of characters has a capacity precondition; that `js_dtoa_max_len` is enough is
  not shown.
- DtoaStrings.ReadNumber: prefixes such as 0x, digit separators, text that is not a number and exponents that
  overflow an int are not modelled; in radixes that are not powers of two the source cuts off digits beyond its
  limit on purpose, so the result is nearest to what is kept.
- The fixed and fractional formats of `js_dtoa`, and the printing of zero, infinity and NaN.
- The tables of powers of five in `pow_ui` and `pow_ui_inv`: the general path is modelled.
- DtoaSearch.FindDigits: that the least number of digits is found is not shown for powers of two that are not subnormal,
  where numbers below reach only half as far; there the search stops at the first precision that fails.
- The contents of the Unicode tables; what is assumed of them are the predicates `TableOk`, `FoldsOk`,
  `Consistent` (of an index, and of the two composition tables), `Orderly`, `HangulFree` and `Grounded`. The generator is
  modelled for property tables only.
- Argument checking and the collection of iterators in `zip` (slots hold objects), and `zipKeyed`.
- `exchange_func`: elements are swapped as values, not as bytes.
