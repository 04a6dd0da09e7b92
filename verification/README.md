# Verified models of the Banzami clients

This Dafny project models the parts of the repository whose correctness is hardest to see, and proves what they are for.

- **QR coding engine** (the vendored bar code library of the mobile web app): finite fields and their tables, polynomial
  arithmetic, Reed-Solomon encoding and decoding, word-packed bits, the QR text stream, block interleaving, masked zigzag
  placement, BCH check bits, and Aztec bit stuffing. The main results are that Reed-Solomon decoding restores every word
  damaged in at most half as many symbols as there are check symbols, and that a whole QR symbol gives its text back when
  no block lost more codewords than that. The QR codes follow ISO/IEC 18004:2015, sections 7.4 to 7.10.
- **Hosted-page status watcher**: the frame parser (a subset of section 9.2.6 of the WHATWG HTML Living Standard) and the
  reconnecting loop, over every sequence of network outcomes.
- **Step-up and session protocol** of the operator console, over every interleaving of requests.
- **Matrix save protocol** of the Validation Studio: the governance gate and the history of every item over runs of saves.
- **Money printing**: two independently written formatters, their agreement, and reading amounts back.

## Layout

| file | content |
|---|---|
| `Wrappers.dfy`, `BinaryDigits.dfy`, `WhiteSpace.dfy` | results and options; exclusive-or and powers of two; trimming |
| `GaloisField.dfy`, `GaloisFieldTables.dfy`, `QrCodeField.dfy` | field laws, the table constructor, two concrete fields |
| `Polynomials.dfy`, `GenericGFPoly.dfy` | polynomials as values, and the buffer loops that compute with them |
| `ReedSolomonEncoder.dfy` | generator, check symbols |
| `KeyEquation.dfy`, `EuclideanKeySolver.dfy`, `ReceivedWord.dfy`, `ReedSolomonDecoder.dfy` | decoding |
| `BitWords.dfy`, `BitArray.dfy`, `BitSource.dfy` | 32-bit words, packed bits, reading bits from bytes |
| `QrText.dfy`, `QrTextDecoder.dfy`, `QrBlocks.dfy`, `QrPlacement.dfy`, `QrSymbol.dfy` | the stages of a QR symbol, and all of them together |
| `QrStandard.dfy`, `QrModules.dfy` | streams and modules in the numbers of the standard |
| `BchCode.dfy`, `AztecStuffing.dfy` | BCH check bits, Aztec bit stuffing |
| `SseFrames.dfy`, `StatusWatcher.dfy`, `WatcherRuns.dfy` | frame parser, watcher, what happened in a run of it |
| `StepUp.dfy`, `StepUpRuns.dfy` | step-up and session protocol, what happened in a run of it |
| `MatrixGovernance.dfy`, `MatrixSave.dfy` | governance check, saves and histories |
| `MoneyFormat.dfy` | money printing and totals |

`dafny verify dfyconfig.toml --resource-limit 2000000` checks the project.

## How it is modelled

Classes whose methods change fields are classes; loops that fill buffers are loops over arrays or growing sequences, each
tied to a specification function, and the lemmas are about those functions. A class named `X` in the minified library is
cited by its minified name; the whole library file is its line 1. Exceptions are `Result` values. Numbers that the library
keeps in 32-bit words (`BitArray`, `BitSource.ReadBits`, `BchCode`) are bit vectors or carry their truncation; other
integers are mathematical.

Asynchronous code is cut at its awaits: each method of `StatusWatcher.Watcher` and `StepUp.Console` is the code between two
of them, equals one step of a pure state machine, and the results are about every sequence of steps. `WatcherRuns` and
`StepUpRuns` say of each observation and each state by which events of the run it came about, and by no others.

Where the code differs from what its comments say, the model follows the code:

- `willFit` compares with an unfloored quotient, so it refuses streams that fill the capacity exactly (`WillFitExactly`).
- The watcher can deliver a status after the page closed it. `DeliveredAfterClosed` is a run in which that happens within
  one chunk; the exact condition is in `StepLate` for a step and in `RunsLate` for a run.
- The Reed-Solomon decoder accepts words it has not turned into codewords (`AcceptedNonCodeword`); when it does is part of
  `Decode`.
- The frame parser trims more white space than the one space the standard drops (`FrameRoundTrip`, `FrameRead`).
- History is append-only only for saves that are given the stored histories; the studio's own session is not such a run
  (`StudioForgets`, `StudioDropsEntry`, `HistoryKeptIff`).
- The change summary does not see evidence that is replaced by as much other evidence (`Unlisted`).

## Model

| member | source | states |
|---|---|---|
| GaloisField.GenericGF.Multiply | apps/mobile/web/zxing-library-0.21.3.js:1 | `Q.multiply`: the exp/log table lookup is the carry-less product modulo the primitive polynomial, for every pair of elements |
| GaloisField.CheckedInverse | apps/mobile/web/zxing-library-0.21.3.js:1 | `Q.inverse`: refused exactly for zero; otherwise the answer is the only element whose product with the argument is one |
| GaloisField.TimesAssoc | apps/mobile/web/zxing-library-0.21.3.js:1 | `Q`: multiplication is associative in every field whose x has full order; with the laws beside it this is a field |
| GaloisField.LogExp | apps/mobile/web/zxing-library-0.21.3.js:1 | `Q` tables: every nonzero element is the power of x that its log entry names, although only the order of x is known (counting argument) |
| GaloisFieldTables.Build | apps/mobile/web/zxing-library-0.21.3.js:1 | `Q` constructor: its two loops fill tables that are lawful whenever x has full order, and mutually consistent in any case |
| GaloisFieldTables.AztecParam | apps/mobile/web/zxing-library-0.21.3.js:1 | `AZTEC_PARAM` (19, 16, 1): the constructor yields a lawful field |
| QrCodeField.QrCodeField256 | apps/mobile/web/zxing-library-0.21.3.js:1 | `QR_CODE_FIELD_256` (285, 256, 0): the constructor yields a lawful field of bytes, so the QR results below are about the field the library uses |
| GenericGFPoly.New | apps/mobile/web/zxing-library-0.21.3.js:1 | `K` constructor: leading zeros are dropped, an empty array is refused |
| GenericGFPoly.EvaluateAt | apps/mobile/web/zxing-library-0.21.3.js:1 | `K.evaluateAt`: all three branches (0, 1, Horner) give the value of the polynomial |
| GenericGFPoly.AddOrSubtract | apps/mobile/web/zxing-library-0.21.3.js:1 | `K.addOrSubtract`: the copied prefix and XOR loop compute the sum, trimmed |
| GenericGFPoly.Multiply | apps/mobile/web/zxing-library-0.21.3.js:1 | `K.multiply`: the double loop over the product buffer computes the product |
| GenericGFPoly.MultiplyScalar | apps/mobile/web/zxing-library-0.21.3.js:1 | `K.multiplyScalar`: scalar multiple, zero and one included |
| GenericGFPoly.MultiplyByMonomial | apps/mobile/web/zxing-library-0.21.3.js:1 | `K.multiplyByMonomial`: scaled and shifted by the degree |
| GenericGFPoly.BuildMonomial | apps/mobile/web/zxing-library-0.21.3.js:1 | `Q.buildMonomial`: the monomial c * x^n |
| GenericGFPoly.Divide | apps/mobile/web/zxing-library-0.21.3.js:1 | `K.divide`: terminates for every pair with a nonzero divisor, dividend = quotient * divisor + remainder, remainder of lower degree; division by zero refused |
| GenericGFPoly.DivisionUnique | apps/mobile/web/zxing-library-0.21.3.js:1 | quotient and remainder of `K.divide` are the only ones possible |
| ReedSolomonEncoder.ReedSolomonEncoder.BuildGenerator | apps/mobile/web/zxing-library-0.21.3.js:1 | `gr.buildGenerator`: extends the cache in place and returns the product of the first factors; the cache only grows |
| ReedSolomonEncoder.ReedSolomonEncoder.Encode | apps/mobile/web/zxing-library-0.21.3.js:1 | `gr.encode`: data untouched, check symbols written so that the word is zero at every root of the generator; refusals exactly for no check symbols or no data |
| ReedSolomonEncoder.GeneratorRoots | apps/mobile/web/zxing-library-0.21.3.js:1 | the generator polynomial vanishes at each of its roots |
| ReedSolomonEncoder.CodewordUnique | apps/mobile/web/zxing-library-0.21.3.js:1 | the check symbols that `gr.encode` writes are the only ones that make the data a codeword |
| KeyEquation.KeyEquationHolds | apps/mobile/web/zxing-library-0.21.3.js:1 | the equation behind `runEuclideanAlgorithm`: syndrome * locator agrees with the evaluator modulo x^r, for every set of error locations |
| KeyEquation.LocatorRoots | apps/mobile/web/zxing-library-0.21.3.js:1 | the locator is zero exactly at the inverses of the error locations, which is what the root search looks for |
| KeyEquation.FactorTheorem | apps/mobile/web/zxing-library-0.21.3.js:1 | a root of a polynomial over the field splits off as a factor |
| KeyEquation.RootsDivide | apps/mobile/web/zxing-library-0.21.3.js:1 | a polynomial zero at all the inverse locations is a multiple of the locator |
| KeyEquation.Forney | apps/mobile/web/zxing-library-0.21.3.js:1 | the formula of `findErrorMagnitudes`: evaluator over the product of the other factors is the error value |
| EuclideanKeySolver.EuclidStart | apps/mobile/web/zxing-library-0.21.3.js:1 | the loop invariant of `runEuclideanAlgorithm` holds before the first pass |
| EuclideanKeySolver.EuclidStep | apps/mobile/web/zxing-library-0.21.3.js:1 | every pass keeps t * rLast + tLast * r = x^R, r congruent to t * S modulo x^R, and the degree sum |
| EuclideanKeySolver.KeySolution | apps/mobile/web/zxing-library-0.21.3.js:1 | any state in which the loop may stop is the locator and evaluator up to one common nonzero constant, when at most R/2 errors happened |
| ReedSolomonDecoder.RunEuclideanAlgorithm | apps/mobile/web/zxing-library-0.21.3.js:1 | `$.runEuclideanAlgorithm`: terminates with falling degrees; for R >= 2 neither the division failure nor the zero remainder can be raised; with a solvable syndrome it returns the normalised locator and evaluator |
| ReedSolomonDecoder.FindErrorLocations | apps/mobile/web/zxing-library-0.21.3.js:1 | `$.findErrorLocations`: returns all inverse roots in search order, or refuses when their number is not the degree |
| ReedSolomonDecoder.FindErrorMagnitudes | apps/mobile/web/zxing-library-0.21.3.js:1 | `$.findErrorMagnitudes`: the quotient of the evaluator by the product of the other factors, times the inverse location for base 1 |
| ReedSolomonDecoder.Syndromes | apps/mobile/web/zxing-library-0.21.3.js:1 | the syndrome loop of `$.decode`: values of the received word at the roots, and whether all are zero |
| ReedSolomonDecoder.NearCodewords | apps/mobile/web/zxing-library-0.21.3.js:1 | a codeword within R/2 of another codeword is that codeword: no two corrections compete |
| ReedSolomonDecoder.OneSymbolCorrectable | apps/mobile/web/zxing-library-0.21.3.js:1 | a single symbol changed to any value is within the bound of `$.decode` for any two check symbols or more |
| ReedSolomonDecoder.AnswerMeans | apps/mobile/web/zxing-library-0.21.3.js:1 | correcting by the formula at the inverse roots of any solution of the key equation gives a codeword if and only if omega has a lower degree than sigma |
| ReedSolomonDecoder.Decode | apps/mobile/web/zxing-library-0.21.3.js:1 | `$.decode` in place: every word within R/2 changed symbols of a codeword becomes that codeword; codewords stay as they are; for even R an answer without error leaves a codeword if and only if a codeword was within reach; whatever it is given, an answer without error leaves a codeword exactly when omega has a lower degree than sigma, no more than half the check symbols, rounded up, are altered, and a word whose later syndromes are zero is accepted as it is; the empty array is refused, and for R >= 2 the two internal failures cannot occur |
| ReedSolomonDecoder.AcceptedNonCodeword | apps/mobile/web/zxing-library-0.21.3.js:1 | for every field and every R from 2 to below its size there is a word that `$.decode` accepts unchanged although it is no codeword |
| ReceivedWord.EvalDamaged | apps/mobile/web/zxing-library-0.21.3.js:1 | correcting places changes the value at each root by the weighted power sum of the locations |
| ReceivedWord.CorrectRestores | apps/mobile/web/zxing-library-0.21.3.js:1 | XOR of the error values at the error positions gives the sent word back |
| BitArray.BitArray.Get | apps/mobile/web/zxing-library-0.21.3.js:1 | `C.get`: bit i of the contents; false beyond the size |
| BitArray.BitArray.Set | apps/mobile/web/zxing-library-0.21.3.js:1 | `C.set`: sets exactly bit i of the words, also beyond the size within the words |
| BitArray.BitArray.Flip | apps/mobile/web/zxing-library-0.21.3.js:1 | `C.flip`: turns exactly bit i of the words, also beyond the size within the words |
| BitArray.BitArray.AppendBit | apps/mobile/web/zxing-library-0.21.3.js:1 | `C.appendBit`: contents grow by one bit, capacity as needed |
| BitArray.BitArray.AppendBits | apps/mobile/web/zxing-library-0.21.3.js:1 | `C.appendBits`: appends the low n bits, high bit first, of the two's complement of a negative value; a negative count or more than 32 bits refused without effect |
| BitArray.BitArray.AppendBitArray | apps/mobile/web/zxing-library-0.21.3.js:1 | `C.appendBitArray`: appends the other array's bits, also when the other array is the same one |
| BitArray.BitArray.SetRange | apps/mobile/web/zxing-library-0.21.3.js:1 | `C.setRange`: word masks set exactly the bits of the range; bad ranges refused without effect |
| BitArray.BitArray.IsRange | apps/mobile/web/zxing-library-0.21.3.js:1 | `C.isRange`: true exactly when every bit of the range has the value |
| BitArray.BitArray.GetNextSet | apps/mobile/web/zxing-library-0.21.3.js:1 | `C.getNextSet`: the first set bit from the start on, or the size |
| BitArray.BitArray.GetNextUnset | apps/mobile/web/zxing-library-0.21.3.js:1 | `C.getNextUnset`: the first clear bit from the start on, or the size |
| BitArray.BitArray.Reverse | apps/mobile/web/zxing-library-0.21.3.js:1 | `C.reverse`: word swap, bit swap and the cross-word shift reverse the whole sequence, for every size |
| BitArray.BitArray.XorWith | apps/mobile/web/zxing-library-0.21.3.js:1 | `C.xor`: bitwise difference, all zeros with itself; different sizes refused without effect |
| BitArray.BitArray.ToBytes | apps/mobile/web/zxing-library-0.21.3.js:1 | `C.toBytes`: packs eight bits a byte into the destination and leaves the rest of it alone |
| BitArray.ReversedTwice | apps/mobile/web/zxing-library-0.21.3.js:1 | reversing twice is the identity |
| BitSource.BitSource.Available | apps/mobile/web/zxing-library-0.21.3.js:1 | `de.available`: exactly the bits not yet read |
| BitSource.BitSource.ReadBits | apps/mobile/web/zxing-library-0.21.3.js:1 | `de.readBits`: the number in the next n bits as a signed 32-bit integer, and the position moves by n; out-of-range widths refused without effect |
| BitSource.ReadsSigned | apps/mobile/web/zxing-library-0.21.3.js:1 | `de.readBits`: fewer than 32 bits are their number, and of 32 bits the first counts as minus 2^31 |
| BitSource.FieldsRoundTrip | apps/mobile/web/zxing-library-0.21.3.js:1 | any list of fields appended, packed into bytes and read with the same widths gives the same values in order |
| BitSource.PackAndRead | apps/mobile/web/zxing-library-0.21.3.js:1 | the same through the classes: fields of 1 to 31 bits appended with `C.appendBits`, packed with `C.toBytes` and read with `de.readBits` come back, and fewer than eight bits are left |
| BitSource.PackedStream | apps/mobile/web/zxing-library-0.21.3.js:1 | packing and streaming gives the bits back, followed by zeros up to the byte count |
| QrText.ChooseMode | apps/mobile/web/zxing-library-0.21.3.js:1 | `Ir.chooseMode` without a Shift_JIS encoding: numeric exactly for nonempty digit strings, alphanumeric exactly for the others over the 45 characters with a letter or sign |
| QrText.AppendNumericBytes | apps/mobile/web/zxing-library-0.21.3.js:1 | `Ir.appendNumericBytes`: groups of three, two and one digits in 10, 7 and 4 bits |
| QrText.AppendAlphanumericBytes | apps/mobile/web/zxing-library-0.21.3.js:1 | `Ir.appendAlphanumericBytes`: pairs in 11 bits, a single last character in 6 |
| QrText.TerminateBits | apps/mobile/web/zxing-library-0.21.3.js:1 | `Ir.terminateBits`: refuses what does not fit; otherwise exactly 8 * capacity bits: terminator, alignment, alternating pad bytes |
| QrText.EncodeText | apps/mobile/web/zxing-library-0.21.3.js:1 | the stream part of `Ir.encode`: mode, length, data, termination, with the indicators and length widths of each version range as numbers; the length check and the capacity check as refusals |
| QrText.TablesAgree | apps/mobile/web/zxing-library-0.21.3.js:1 | the encoder's and the decoder's alphanumeric tables are inverse |
| QrText.WillFitExactly | apps/mobile/web/zxing-library-0.21.3.js:1 | `Ir.willFit`: implies that the bits fit, and refuses exactly the streams that would leave fewer than seven bits free |
| QrTextDecoder.DecodeNumericSegment | apps/mobile/web/zxing-library-0.21.3.js:1 | `Re.decodeNumericSegment`: reads what the specification reads and refuses values that are no digits |
| QrTextDecoder.DecodeAlphanumericSegment | apps/mobile/web/zxing-library-0.21.3.js:1 | `Re.decodeAlphanumericSegment`: likewise, without the FNC1 handling |
| QrTextDecoder.Decode | apps/mobile/web/zxing-library-0.21.3.js:1 | `Re.decode`: the segment loop, until a terminator or fewer than four bits |
| QrTextDecoder.TextRoundTrip | apps/mobile/web/zxing-library-0.21.3.js:1 | for every numeric or alphanumeric text that fits, decoding the terminated stream gives the text, whatever the padding |
| QrTextDecoder.PackedTextRoundTrip | apps/mobile/web/zxing-library-0.21.3.js:1 | the same through the packed bytes |
| QrStandard.NumericStreamReads | apps/mobile/web/zxing-library-0.21.3.js:1 | `Re.decode` and `Te`: 0001, the length in 10, 12 or 14 bits by version and the groups, behind them any terminator, are read as the text, for every digit text that fits |
| QrStandard.AlphanumericStreamReads | apps/mobile/web/zxing-library-0.21.3.js:1 | the same with 0010 and 9, 11 or 13 bits for every alphanumeric text that fits |
| QrStandard.PiecesRead | apps/mobile/web/zxing-library-0.21.3.js:1 | `Re.decode`: any segments one after another are read as their texts one after another |
| QrStandard.TableIsStandard | apps/mobile/web/zxing-library-0.21.3.js:1 | both alphanumeric tables are the standard's 45 characters in its order |
| QrStandard.LettersAre | apps/mobile/web/zxing-library-0.21.3.js:1 | the encoder's table has exactly those characters |
| QrStandard.NumericGroup | apps/mobile/web/zxing-library-0.21.3.js:1 | `Ir.appendNumericBytes`: the k-th group is the decimal value of its three digits in ten bits, of two in seven, of one in four |
| QrStandard.AlphanumericGroup | apps/mobile/web/zxing-library-0.21.3.js:1 | `Ir.appendAlphanumericBytes`: the k-th pair is 45 times the first value plus the second in eleven bits, a last character in six |
| QrStandard.NumericExactly | apps/mobile/web/zxing-library-0.21.3.js:1 | `Re.decodeNumericSegment` accepts exactly the bits that the encoder writes for some digit text of that length |
| QrStandard.AlphanumericExactly | apps/mobile/web/zxing-library-0.21.3.js:1 | `Re.decodeAlphanumericSegment` likewise |
| QrStandard.TerminatedIs | apps/mobile/web/zxing-library-0.21.3.js:1 | `Ir.terminateBits`: behind the bits stand up to four zeros, zeros to the byte boundary, then 11101100 and 00010001 in turn up to the capacity |
| QrBlocks.GetNumDataBytesAndNumECBytesForBlockID | apps/mobile/web/zxing-library-0.21.3.js:1 | `Ir.getNumDataBytesAndNumECBytesForBlockID`: short blocks first; refuses only ids out of range, its other three checks never fail |
| QrBlocks.SizesAddUp | apps/mobile/web/zxing-library-0.21.3.js:1 | the block sizes sum to the data total if and only if data and total agree modulo the block count |
| QrBlocks.GenerateECBytes | apps/mobile/web/zxing-library-0.21.3.js:1 | `Ir.generateECBytes`: data followed by the result is a codeword |
| QrBlocks.InterleaveWithECBytes | apps/mobile/web/zxing-library-0.21.3.js:1 | `Ir.interleaveWithECBytes`: succeeds exactly on consistent sizes; the output is the column-wise interleaving of the data slices and of their check bytes |
| QrBlocks.GetDataBlocks | apps/mobile/web/zxing-library-0.21.3.js:1 | `pe.getDataBlocks`: each block is taken out of the raw codewords at the interleaved positions; a wrong count refused |
| QrBlocks.InterleaveRoundTrip | apps/mobile/web/zxing-library-0.21.3.js:1 | taking apart the interleaved codewords gives every block back, for any block count, any split and any check length |
| QrPlacement.MasksAgree | apps/mobile/web/zxing-library-0.21.3.js:1 | `fr.getDataMaskBit` and the decoder's masks `_e` agree for all eight masks at every coordinate |
| QrPlacement.ZigzagVisitsOnce | apps/mobile/web/zxing-library-0.21.3.js:1 | the zigzag of a matrix of any size visits every module exactly once, except column 6 of an odd-sized one (column 0 below size 7), which it never visits |
| QrPlacement.PathCoversFree | apps/mobile/web/zxing-library-0.21.3.js:1 | when column 6 is taken, the zigzag reaches every free module |
| QrPlacement.EmbedDataBits | apps/mobile/web/zxing-library-0.21.3.js:1 | `Er.embedDataBits`: free modules along the path get the masked bits in order, zeros beyond them, all others stay; refuses exactly when bits are left over |
| QrPlacement.ReadCodewords | apps/mobile/web/zxing-library-0.21.3.js:1 | `Se.readCodewords`: unmasks in place and returns the octets of the free modules along the path; a wrong count refused |
| QrPlacement.UnmaskBitMatrix | apps/mobile/web/zxing-library-0.21.3.js:1 | `_e.unmaskBitMatrix`: flips exactly the masked modules |
| QrPlacement.PlacementRoundTrip | apps/mobile/web/zxing-library-0.21.3.js:1 | reading an undamaged matrix gives back the embedded codewords |
| QrPlacement.CodewordRoundTrip | apps/mobile/web/zxing-library-0.21.3.js:1 | each codeword whose eight modules are undamaged is read as written, whatever the other modules show |
| QrModules.PathOrder | apps/mobile/web/zxing-library-0.21.3.js:1 | `Er.embedDataBits`: the place of every step of the zigzag in closed form, up and down in turn, right before left, column 6 left out |
| QrModules.MasksAreStandard | apps/mobile/web/zxing-library-0.21.3.js:1 | `fr.getDataMaskBit` and `_e`: all eight masks are the conditions of the standard's table |
| QrModules.ModulesShow | apps/mobile/web/zxing-library-0.21.3.js:1 | `Er.embedDataBits`: each free module shows its bit under the mask, and those left over the mask alone |
| QrSymbol.EncodeSymbol | apps/mobile/web/zxing-library-0.21.3.js:1 | the stages of `Ir.encode` and `Er.buildMatrix` behind version and mask choice: succeeds exactly when the text has a mode, its length and bits fit, and the matrix has room; then the matrix holds its protected blocks |
| QrSymbol.CorrectErrors | apps/mobile/web/zxing-library-0.21.3.js:1 | `correctErrors` of the QR decoder: the data part becomes that of the codeword within reach, check bytes stay as received; an answer without error is an accepted word, an error leaves the block as it is and means that no codeword was within reach |
| QrSymbol.BlockDistance | apps/mobile/web/zxing-library-0.21.3.js:1 | a block read from a damaged matrix differs from the encoded block only in damaged codewords |
| QrSymbol.SymbolRoundTrip | apps/mobile/web/zxing-library-0.21.3.js:1 | the whole symbol: if no block has more damaged codewords than half its check bytes, every block is within the correction bound and its data decodes to the text |
| QrSymbol.DecodeSymbol | apps/mobile/web/zxing-library-0.21.3.js:1 | `decodeBitMatrixParser`: returns the text of every matrix that shows an encoding damaged within that bound; on any matrix a text or a format error is what the accepted blocks say, a checksum error means a block out of reach, and a wrong codeword count is refused |
| BchCode.NumberOfLeadingZeros | apps/mobile/web/zxing-library-0.21.3.js:1 | `w.numberOfLeadingZeros`: the shifting binary search counts the leading zeros of every 32-bit word |
| BchCode.CalculateBCHCode | apps/mobile/web/zxing-library-0.21.3.js:1 | `Er.calculateBCHCode`: terminates for every value and nonzero generator with a remainder of lower degree, shifted value plus remainder a multiple of the generator; generator 0 refused; the 32-bit shift truncates |
| BchCode.RemainderUnique | apps/mobile/web/zxing-library-0.21.3.js:1 | there is only one such remainder |
| BchCode.CodewordIsMultiple | apps/mobile/web/zxing-library-0.21.3.js:1 | value and check bits together are a multiple of the generator whenever the shift loses no bit |
| AztecStuffing.StuffBits | apps/mobile/web/zxing-library-0.21.3.js:1 | `An.stuffBits`: terminates and writes the stuffed words, for word sizes from 2 to 30 |
| AztecStuffing.UnstuffWords | apps/mobile/web/zxing-library-0.21.3.js:1 | the un-stuffing half of `tt.correctBits`: refuses exactly the all-zero and all-one words, otherwise fills in the bits each word stands for |
| AztecStuffing.ReadCode | apps/mobile/web/zxing-library-0.21.3.js:1 | `tt.readCode`: the next bits, zeros beyond the end, as a signed 32-bit integer; for fewer than 32 bits that is their number |
| AztecStuffing.StuffingRoundTrip | apps/mobile/web/zxing-library-0.21.3.js:1 | no written word is all zeros or all ones, and un-stuffing gives the original bits followed by fewer ones than a word has bits |
| AztecStuffing.WordsReadBack | apps/mobile/web/zxing-library-0.21.3.js:1 | words read at their positions from the written bits are the words written |
| SseFrames.ParseFrames | apps/pay/lib/realtime-status.ts:25-44 | the shrinking loop yields the frames in front of every blank line and the rest behind the last |
| SseFrames.ParseFrame | apps/pay/lib/realtime-status.ts:32-41 | the line loop: comments skipped, last event and retry win, data lines joined |
| SseFrames.Rebuild | apps/pay/lib/realtime-status.ts:27-31 | raw frames, separators and rest rebuild the input; the rest holds no blank line |
| SseFrames.SplitUnique | apps/pay/lib/realtime-status.ts:29-31 | there is no other way to split a text like that |
| SseFrames.ChunkInvariance | apps/pay/lib/realtime-status.ts:84-89 | however a stream is cut into chunks, frames and final rest are those of the whole stream |
| SseFrames.FrameRoundTrip | apps/pay/lib/realtime-status.ts:32-41 | a frame written with an event line and data lines is parsed back if and only if the name has no white space around it and no data line starts with any |
| SseFrames.FrameRead | apps/pay/lib/realtime-status.ts:32-41 | what a frame with any name and data is read as: the name trimmed, each data line without the white space in front |
| SseFrames.FrameMeans | apps/pay/lib/realtime-status.ts:32-42 | the frame of any raw text: the last event line names it, the last retry line gives the time, the data lines make up the data, other lines count for nothing |
| WhiteSpace.TrimTakes | apps/pay/lib/realtime-status.ts:38-40 | trimming takes off exactly the white space at the ends; a text is blank if and only if nothing is left |
| WhiteSpace.SpacesAre | apps/pay/lib/realtime-status.ts:38-40 | white space is the 25 code points of the language's trim functions |
| StatusWatcher.Watcher.constructor | apps/pay/lib/realtime-status.ts:54-66 | a token that is not a status token ends with an error at once; otherwise the first fetch is due |
| StatusWatcher.Watcher.OnResponse | apps/pay/lib/realtime-status.ts:69-83 | a good response starts reading with an empty buffer, any other is refused |
| StatusWatcher.Watcher.OnErrorBody | apps/pay/lib/realtime-status.ts:74-80 | expired token ends, other refusals below 500 except 429 end with an error, the rest count as failed attempts |
| StatusWatcher.Watcher.OnChunk | apps/pay/lib/realtime-status.ts:84-99 | the loop over a chunk's frames: retry, expiry, delivery with reset of the count, terminal status, malformed data |
| StatusWatcher.Watcher.OnStreamDone | apps/pay/lib/realtime-status.ts:86-106 | a clean end waits and reconnects without touching the count |
| StatusWatcher.Watcher.OnException | apps/pay/lib/realtime-status.ts:100-106 | a failed attempt counts, the sixth ends with an error, otherwise the delay grows with the count |
| StatusWatcher.Watcher.OnTimer | apps/pay/lib/realtime-status.ts:67-106 | the delay over, the loop goes on unless ended |
| StatusWatcher.Watcher.OnClose | apps/pay/lib/realtime-status.ts:60-110 | the closer ends once, later calls do nothing |
| StatusWatcher.RunsKeep | apps/pay/lib/realtime-status.ts:58-111 | every run: `onEnd` at most once and always before stopping; nothing after a terminal, expired or error ending; failures since the last delivery never exceed six, and the sixth ends the run; clean ends neither raise nor reset the count |
| StatusWatcher.AfterTheEnd | apps/pay/lib/realtime-status.ts:84-98 | a step that starts ended delivers a status if and only if it is a chunk of a stream being read that holds one before any expiry |
| StatusWatcher.StepLate | apps/pay/lib/realtime-status.ts:84-98 | one step puts a status behind the page's `closed` if and only if its chunk holds one for a watcher already ended, or is closed from the callback of one status and holds another behind it |
| StatusWatcher.RunsLate | apps/pay/lib/realtime-status.ts:58-111 | over every run: some status follows `closed` if and only if some step meets that condition |
| StatusWatcher.DeliveredAfterClosed | apps/pay/lib/realtime-status.ts:84-98 | a concrete run: the page closes from the callback of the first status of a chunk, and the second is delivered all the same |
| StatusWatcher.DeliveredFromResolvedRead | apps/pay/lib/realtime-status.ts:60-98 | a concrete run in which the page closes while a read has already resolved, and its status is delivered |
| WatcherRuns.ErrorExactly | apps/pay/lib/realtime-status.ts:54-104 | over every run: the watch ends with an error if and only if the token is no status token, or the last response was refused with a status below 500 other than 429 and a code other than expiry on a watch not ended, or the sixth attempt since the last delivery failed |
| WatcherRuns.OutageRetried | apps/pay/lib/realtime-status.ts:74-106 | a refusal with 429 or from 500 on and another code, on a watch not ended, adds exactly one failed attempt, ends the watch only as the sixth, and otherwise leads to a wait |
| WatcherRuns.AddedExactly | apps/pay/lib/realtime-status.ts:60-106 | over every run: failed attempts, clean ends and the endings terminal, expired and closed stand in the trace exactly as often as events cause them |
| WatcherRuns.DeliveredInOrder | apps/pay/lib/realtime-status.ts:90-98 | over every run: the page is given exactly the statuses of the frames up to the one that stops each chunk, in order |
| WatcherRuns.ConsumedTurns | apps/pay/lib/realtime-status.ts:90-98 | one chunk: what it delivers, adds, and leaves behind, by the first frame that stops it and by the callbacks from which the page closes |
| WatcherRuns.RefusedExactly | apps/pay/lib/realtime-status.ts:69-75 | the body of a refusal is read if and only if the last fetch was refused with that status and no body has been read since |
| WatcherRuns.ReadingExactly | apps/pay/lib/realtime-status.ts:81-86 | a stream is read if and only if a good response came and it has not ended, broken or been stopped by a frame since |
| WatcherRuns.WaitingExactly | apps/pay/lib/realtime-status.ts:100-106 | the watcher waits if and only if a stream ended cleanly or an attempt failed that leaves others, and the time is not over |
| WatcherRuns.FetchingExactly | apps/pay/lib/realtime-status.ts:67-69 | an answer is waited for if and only if the watch has just started or a wait is over |
| WatcherRuns.RunsWait | apps/pay/lib/realtime-status.ts:106-106 | over every run: each wait is the reconnection time, once for every attempt that failed since the last delivery and at least once |
| WatcherRuns.RunsRetry | apps/pay/lib/realtime-status.ts:66-91 | over every run: the reconnection time is the last one named by a frame looked at, and three seconds before |
| WatcherRuns.StreamKept | apps/pay/lib/realtime-status.ts:84-89 | over every run: what is carried over is the rest of the whole text of the stream, and each chunk completes exactly the frames that text gains |
| StepUp.Console.Req | apps/admin/lib/admin-api.ts:1051-1052 | a request is sent once |
| StepUp.Console.OnAnswer | apps/admin/lib/admin-api.ts:1053-1075 | a 401 ends the session at once only for the session check's own path; other 401s lead to a check in a browser |
| StepUp.Console.OnSessionChecked | apps/admin/lib/admin-api.ts:1075-1082 | the session ends only if the check answers 401 |
| StepUp.Console.OnErrorRead | apps/admin/lib/admin-api.ts:1083-1089 | a step-up refusal joins or starts a prompt, everything else is thrown |
| StepUp.Console.StepUpInteractively | apps/admin/lib/admin-api.ts:1027-1048 | no prompt: no; a loop in flight: that loop; otherwise a new loop becomes the one in flight |
| StepUp.Console.OnTyped | apps/admin/lib/admin-api.ts:1033-1037 | cancelling finishes the loop, a code is sent as a request without step-up |
| StepUp.Console.OnSubmitted | apps/admin/lib/admin-api.ts:1037-1045 | success finishes the loop, a rejected code asks again, anything else is rethrown |
| StepUp.Console.OnFinally | apps/admin/lib/admin-api.ts:1047-1047 | the finally handler clears the loop in flight |
| StepUp.Console.OnReleased | apps/admin/lib/admin-api.ts:1087-1089 | granted: sent once more without step-up; cancelled: the refusal; failed: the failure |
| StepUp.RunsKeep | apps/admin/lib/admin-api.ts:1027-1097 | the invariant of every interleaving of requests, answers, prompts and codes |
| StepUp.OneLoop | apps/admin/lib/admin-api.ts:1028-1047 | never two prompt loops at once |
| StepUp.SharedOutcome | apps/admin/lib/admin-api.ts:1029-1048 | requests that joined one loop all go the way of its one outcome |
| StepUp.OutcomeFixed | apps/admin/lib/admin-api.ts:1031-1047 | a loop's outcome never changes |
| StepUpRuns.SentAtMostTwice | apps/admin/lib/admin-api.ts:1086-1088 | every logical request is sent once or twice, twice only after a step-up request of the loop it joined succeeded, and no waiting request is stranded |
| StepUpRuns.GrantedExactly | apps/admin/lib/admin-api.ts:1037-1040 | in every run a loop is granted if and only if a step-up request that it sent succeeded |
| StepUpRuns.CancelledExactly | apps/admin/lib/admin-api.ts:1035-1036 | it is cancelled if and only if the operator gave no code |
| StepUpRuns.ThrewExactly | apps/admin/lib/admin-api.ts:1035-1045 | it throws if and only if the prompt broke or its step-up request ended in anything but success and a rejected code |
| StepUpRuns.AsksAgainExactly | apps/admin/lib/admin-api.ts:1041-1044 | it asks with an error if and only if a code was rejected and the operator has not answered since |
| StepUpRuns.AsksExactly | apps/admin/lib/admin-api.ts:1027-1035 | it asks without an error if and only if a refused request started it and the operator has not answered since |
| StepUpRuns.SubmitsExactly | apps/admin/lib/admin-api.ts:1037-1039 | each code typed is one new request, the one the loop waits for until it has ended |
| StepUpRuns.SentTwiceExactly | apps/admin/lib/admin-api.ts:1086-1088 | a request is sent a second time if and only if its loop was granted |
| StepUpRuns.JoinedExactly | apps/admin/lib/admin-api.ts:1028-1031 | a request joins the loop in flight when it asks for a step-up, or the one it starts, and no other |
| StepUpRuns.AwaitingExactly | apps/admin/lib/admin-api.ts:1086-1087 | a request waits if and only if it was refused with 403 and the step-up code, may still step up and a prompt was there, and its loop has not ended since |
| StepUpRuns.RefusedExactly | apps/admin/lib/admin-api.ts:1083-1089 | a request ends in a refusal if and only if no step-up could help it or the operator cancelled |
| StepUpRuns.ResolvedExactly | apps/admin/lib/admin-api.ts:1091-1097 | it succeeds if and only if a good answer has no body or one that can be read |
| StepUpRuns.FailedExactly | apps/admin/lib/admin-api.ts:1051-1097 | it fails if and only if the network broke, the body could not be read, or its loop threw |
| StepUpRuns.SendingExactly | apps/admin/lib/admin-api.ts:1051-1052 | it is being sent if and only if it was made, or freed by a granted loop, and has not been answered since |
| StepUpRuns.ReadingErrorExactly | apps/admin/lib/admin-api.ts:1053-1083 | a refusal is read, with the status of the answer, if and only if the answer came without a session check or that check is over |
| StepUpRuns.CheckingExactly | apps/admin/lib/admin-api.ts:1065-1078 | a session check is made if and only if a browser got a 401 from elsewhere than the session check |
| StepUpRuns.ReadingBodyExactly | apps/admin/lib/admin-api.ts:1091-1097 | a body is read if and only if a good answer other than 204 came |
| StepUpRuns.RegisteredExactly | apps/admin/lib/admin-api.ts:1028-1028 | a prompt is there if and only if one was registered and not taken back since |
| StepUp.SessionEnds | apps/admin/lib/admin-api.ts:1065-1082 | in a browser the session is gone if and only if the session check answered 401 at some point of the run |
| MatrixGovernance.CheckItem | apps/validation-studio/lib/governance.ts:16-106 | the issues of one item, in order |
| MatrixGovernance.CheckInvariants | apps/validation-studio/lib/governance.ts:110-136 | the financial invariants of one item, in order |
| MatrixGovernance.CheckRequires | apps/validation-studio/lib/governance.ts:144-170 | the issues of a VALIDATED item's required ids, against the last item under each id |
| MatrixGovernance.GetRequiresBlockers | apps/validation-studio/lib/governance.ts:176-185 | the required items that exist and are not VALIDATED, in order |
| MatrixGovernance.CheckMatrix | apps/validation-studio/lib/governance.ts:225-251 | all issues of a matrix, item by item: an issue is reported if and only if an item of that id warrants its rule at its severity |
| MatrixGovernance.RulesExactly | apps/validation-studio/lib/governance.ts:16-251 | each of the eighteen rules is reported if and only if its condition on the item's fields, the categories, the earlier ids or the last item under the required id holds, with its severity |
| MatrixGovernance.EstimateIs | apps/validation-studio/lib/types.ts:181-222 | the estimate is 100 less the weight of each source that is missing, and below 80 if and only if two are missing |
| MatrixGovernance.ItemsInOrder | apps/validation-studio/lib/governance.ts:230-248 | items are reported in the order of the matrix, the rules of one item in a fixed order |
| MatrixGovernance.NotPassingInOrder | apps/validation-studio/lib/governance.ts:125-133 | invariants are reported in the order they stand in |
| MatrixGovernance.RequiredInOrder | apps/validation-studio/lib/governance.ts:154-167 | required ids are reported in the order they stand in |
| MatrixGovernance.BlockersInOrder | apps/validation-studio/lib/governance.ts:181-184 | blockers stand in the order of the required ids |
| MatrixGovernance.OneBlocker | apps/validation-studio/lib/governance.ts:181-184 | a required id blocks if and only if the last item under it is not VALIDATED, and the blocker is that item |
| MatrixGovernance.ItemErrors | apps/validation-studio/lib/governance.ts:16-106 | the item check reports an error if and only if the item breaks one of the hard rules |
| MatrixGovernance.BlockersDecide | apps/validation-studio/lib/governance.ts:144-185 | the operator's lock and the gate agree: no error if and only if no blocker and nothing missing |
| MatrixGovernance.ChecksExactly | apps/validation-studio/lib/governance.ts:225-251 | the check passes if and only if ids are unique, categories valid, items sound, and everything a VALIDATED item requires is there and VALIDATED |
| MatrixGovernance.ReachableValidated | apps/validation-studio/lib/governance.ts:144-170 | in such a matrix everything reachable through `requires` from a VALIDATED item is VALIDATED, cycles included |
| MatrixGovernance.RequiredExists | apps/validation-studio/lib/governance.ts:154-160 | and nothing a VALIDATED item requires is missing |
| MatrixSave.Repository.SaveMatrix | apps/validation-studio/actions/matrix.ts:44-80 | writes exactly when the check passes: date set in place, and for each item whose status changed one entry with the given or the default approver, fingerprint and reason and the item's evidence refs, nothing else changed; otherwise nothing changes and exactly the errors are returned |
| MatrixSave.SavedAsWritten | apps/validation-studio/actions/matrix.ts:64-76 | what a save makes of an item: compared with the first original under its id, one entry more exactly when the status differs, field by field what was given or the default |
| MatrixSave.StatusNames | apps/validation-studio/actions/matrix.ts:73-73 | the default reason names the statuses as they are stored |
| MatrixSave.ErrorsInOrder | apps/validation-studio/actions/matrix.ts:53-58 | the errors returned keep the order of the issues |
| MatrixSave.SavedGoverned | apps/validation-studio/actions/matrix.ts:53-79 | what is written passes the check as well |
| MatrixSave.RunsGoverned | apps/validation-studio/actions/matrix.ts:53-79 | in every run of saves, with whatever inputs, everything reachable from a VALIDATED item on disk is VALIDATED |
| MatrixSave.ItemGrows | apps/validation-studio/lib/matrix.ts:35-47 | a save whose inputs carry what is on disk only extends a history, by one entry exactly when the status changed, and keeps it chained |
| MatrixSave.RunsChain | apps/validation-studio/actions/matrix.ts:64-78 | in every run of such saves all histories chain and end at the current status |
| MatrixSave.RunsGrow | apps/validation-studio/actions/matrix.ts:64-78 | in every run of such saves an item's history after some saves is a prefix of its history after any later ones, as long as the item stays |
| MatrixSave.HistoryKeptIff | apps/validation-studio/actions/matrix.ts:64-76 | a stored history survives a save if and only if the given item carries it, or lacks only the very entry that is appended |
| MatrixSave.StudioForgets | apps/validation-studio/components/Studio.tsx:201-216 | in a studio session no item's history on disk ever holds more than one entry beyond what was loaded, since the session keeps the copy without it |
| MatrixSave.StudioDropsEntry | apps/validation-studio/components/Studio.tsx:209-215 | the next successful save of a session always drops the entry the last one appended |
| MatrixSave.StudioSessionForgets | apps/validation-studio/components/Studio.tsx:201-216 | a concrete session: one item goes from PLANNED to IN_PROGRESS and back, and the disk holds only the second entry |
| MatrixSave.ComputeChangeSummary | apps/validation-studio/lib/matrix.ts:49-146 | the items with a counterpart and a compared field that differs, in order |
| MatrixSave.SummaryExactly | apps/validation-studio/lib/matrix.ts:49-146 | an item is in the summary if and only if something compared differs from the first original under its id, with its id, title and all the fields that differ |
| MatrixSave.SummaryInOrder | apps/validation-studio/lib/matrix.ts:55-142 | changes are listed in the order of the items |
| MatrixSave.ListedExactly | apps/validation-studio/lib/matrix.ts:59-138 | a field is listed if and only if putting it back would change the item; of the evidence only the count |
| MatrixSave.StatusChangeAppends | apps/validation-studio/lib/matrix.ts:59-62 | the summary lists a status change if and only if the save appends to that item's history |
| MatrixSave.Unlisted | apps/validation-studio/lib/matrix.ts:61-142 | an item is left out if and only if it agrees in every compared field; replaced evidence of the same count goes unannounced |
| MoneyFormat.PayGroupThousands | apps/pay/lib/money.ts:10-18 | the loop groups digits by three from the right |
| MoneyFormat.FormatMoneyDisplay | apps/pay/lib/money.ts:21-30 | the common text of an amount and a currency |
| MoneyFormat.AdminGroupThousands | apps/admin/lib/format.ts:8-17 | the console's loop groups the same way, with a sign of its own |
| MoneyFormat.FormatAmountMinor | apps/admin/lib/format.ts:20-28 | the same amount text; a dash for no amount |
| MoneyFormat.FormatMoney | apps/admin/lib/format.ts:37-41 | the same text as the payment page's formatter for every amount and currency |
| MoneyFormat.SpacesEveryFourth | apps/admin/lib/format.ts:12-15 | exactly every fourth character from the right is a space: groups after the first have three digits, the first at least one |
| MoneyFormat.AmountRoundTrip | apps/admin/lib/format.ts:20-28 | taking out the spaces and reading the comma recovers every integer amount |
| MoneyFormat.MoneyInjective | apps/pay/lib/money.ts:21-30 | for a fixed currency no two amounts print the same |
| MoneyFormat.DashIsNoAmount | apps/admin/lib/format.ts:20-21 | the dash is the text of no amount |
| MoneyFormat.DocumentedTexts | apps/pay/lib/money.ts:20-21 | the documented examples, 5000000 as 50 000 Kz among them |
| MoneyFormat.SameCurrency | apps/admin/lib/format.ts:37-41 | an amount is totalled under the currency whose word it is printed with |
| MoneyFormat.TotalsByCurrency | apps/admin/lib/format.ts:53-66 | one total for each currency that occurs, the sum of exactly its amounts |
| MoneyFormat.TotalsConserve | apps/admin/lib/format.ts:53-66 | the totals of all currencies add up to all the amounts |

## Left out

- ReedSolomonDecoder.Decode: the correction result needs a generator base of 0 or 1, the only values the library's fields have (the magnitude formula divides by the location at most once), words shorter than the field, and symbols of the field; the classes' checks that two operands share a field cannot fail here because the field is one parameter.
- GaloisField.GenericGF.Inverse: inside the model zero is excluded by a precondition that every call meets, and likewise for the logarithm; the library's refusal of the inverse of zero is in GaloisField.CheckedInverse.
- Further fields: 285/256 and 19/16 are shown lawful; the Data Matrix field (301/256) and the Aztec data fields (67/64, 1033/1024, 4201/4096) are not computed. The results hold for every lawful field.
- AztecStuffing.UnstuffWords: the Reed-Solomon call in front of it, and the unfloored codeword count passed to that call, are not modelled; the words come as a parameter.
- AztecStuffing.StuffBits: word sizes below 2 are excluded, since the loop does not advance for size 1, and sizes above 30, where the 32-bit mask changes sign; the library's sizes are 4 to 12.
- QrText.ChooseMode: the kanji mode, which needs a Shift_JIS encoding and its byte table, is not modelled.
- QrTextDecoder.DecodeAlphanumericSegment: the FNC1 handling is not modelled.
- QrText.EncodeText: the byte and kanji modes, ECI, structured append and FNC1 end as a refusal; the version and the capacity come as parameters, so version recommendation is not modelled.
- QrTextDecoder.Decode: other modes than numeric and alphanumeric end as a format error here; the library decodes them. The symbology identifier and the raw bytes of its result are not modelled.
- QrSymbol.DecodeSymbol: format and version information, the mirrored second attempt and the remasking are not modelled; version data, mask and function pattern come as parameters, and so do the sampled modules.
- QrSymbol.EncodeSymbol: the choice of the mask by penalty and the drawing of the function patterns are not modelled; the matrix is passed with its patterns drawn.
- QrBlocks.GetDataBlocks: the block table is a parameter whose groups must be the short blocks followed by blocks one byte longer, as in every version.
- BchCode.CalculateBCHCode: words are the unsigned reading of the library's 32-bit integers; every result is non-negative in both readings.
- SseFrames.ParseFrame: JavaScript's numeral reader is a parameter that gives a nonzero number or nothing; infinities are not represented. Texts are sequences of characters, not UTF-16 units.
- StatusWatcher.Watcher.OnChunk: text decoding and JSON parsing are parameters; callbacks that throw, the detail string of an ending and the abort signal's effect on the network are not modelled (any later network outcome is allowed).
- StepUp.Console.OnAnswer: headers, the CSRF token, the redirect to the login page and the refresh event after a change are not modelled; a prompt that calls back into the console before its first await is excluded.
- MatrixGovernance.CheckItem: issue messages are not modelled, only item, severity and rule.
- MatrixSave.Repository.SaveMatrix: file and JSON handling, fingerprints and git calls are not modelled; a save happens at one given instant.
- MatrixSave.ComputeChangeSummary: the displayed old and new values are not modelled, only which fields are listed; optional fields that are missing count as empty.
- MoneyFormat.FormatMoney: upper-casing is a parameter; amounts are integers, so truncation of fractions is not modelled.
- `formatTotals`: sorting by locale is foreign code.
- Image processing, one-dimensional codes, PDF417, Data Matrix, MaxiCode and camera code of the bar code library: heuristics on pixels with no crisp contract.
- The QR version, alignment and format tables: finite data.
- Server code, React components, network clients and configuration: user interface and plumbing.
