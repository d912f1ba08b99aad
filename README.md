# DICOM StudyInstanceUID scanner, modelled in Dafny

The scanner walks a directory tree and picks out the DICOM files. A file is DICOM when
it holds at least 132 bytes and bytes 128..131 read `DICM`: a 128-byte preamble followed
by the prefix of the DICOM File Meta Information (section 7.1 of DICOM PS3.10). For each
DICOM file it parses the dataset with dcmjs and naturalizes it. It then looks up the
StudyInstanceUID attribute, tag (0020,000D) of DICOM PS3.6, under three keys in order:
`StudyInstanceUID`, `0020000D`, `0020,000D`. Finally it reports how many DICOM files it
found and which of them lack the attribute.

The model keeps the decisions and takes the outside world as parameters:

- `Utf8` models the UTF-8 decoding that `buffer.toString('utf8', 128, 132)` applies.
  It follows the UTF-8 decoder of the WHATWG Encoding Standard. It proves that four bytes
  decode to an ASCII string exactly when they are that string's bytes.
- `JsValues` models JavaScript values, ToBoolean (behind `!`), `??` and `?.[key]`.
- `Sequences` defines order-preserving selection (`Keep`, `Count`, `IsSubsequence`). It
  proves that `Keep` is the only subsequence made of exactly the selected elements.
- `ScanDicomFiles` models `src/scanDicomFiles.ts`. The detector `IsDicomFile` works on a byte
  sequence. The file system is a function from paths to the bytes `fs.readFileSync`
  returns or the error it throws. The dcmjs calls `DicomMessage.readFile` and
  `DicomMetaDictionary.naturalizeDataset` are function-valued fields of `DicomParser`.
  `ScanDicomDirectory` is a method with the source's loop and its invariant.

Where the code's behaviour differs from what a DICOM scanner is usually expected to do,
the model follows the code:

- `isDicomFile` reads the file outside any `try`, so one unreadable file makes
  `allFiles.filter(isDicomFile)` throw and ends the scan before anything is reported.
  `DicomFilter` and `ScanDicomDirectory` return `Unreadable` / `Aborted` for that case.
  They do not treat the file as non-DICOM.
- A StudyInstanceUID made of blanks is truthy, so it is not missing (`BlankUidIsPresent`).
  Only falsy values are missing: `""`, `0`, `NaN`, `false`, `null` and `undefined`.
- The naturalized name `StudyInstanceUID` is tried before the numeric tag keys. `??` stops
  at the first value that is not `null` or `undefined`, even `""` (`EmptyNameShadowsTags`).

## Model

| member | source | states |
|---|---|---|
| `ScanDicomFiles.IsDicomFile` | src/scanDicomFiles.ts:32-36 | a buffer shorter than 132 bytes is never DICOM; a longer one is DICOM iff bytes 128, 129, 130, 131 are 0x44, 0x49, 0x43, 0x4D |
| `ScanDicomFiles.DetectorIgnoresOtherBytes` | src/scanDicomFiles.ts:34-35 | two buffers on the same side of the 132-byte bound that agree on bytes 128..131 get the same answer, whatever their preamble and trailing data |
| `Utf8.DecodeAscii` | src/scanDicomFiles.ts:35 | bytes decode to an ASCII string iff they are that string's ASCII bytes, so the `=== 'DICM'` comparison is a byte comparison |
| `Utf8.DecodeOne` | src/scanDicomFiles.ts:35 | each decoding step consumes at least one byte, and it yields an ASCII character only from a single ASCII byte, equal to it |
| `Utf8.CodePointRange` | src/scanDicomFiles.ts:35 | a well-formed multi-byte sequence decodes to a scalar value of at least U+0080, never a surrogate, at most U+10FFFF |
| `Utf8.Decode` | src/scanDicomFiles.ts:35 | the decoded string has no more characters than the window has bytes |
| `ScanDicomFiles.DicomFilter` | src/scanDicomFiles.ts:72 | it fails iff some file is unreadable, and then names the first unreadable file; otherwise it returns an order-preserving subsequence made only of files the detector accepts, as long as their count, and that is `Keep` of the input under the detector |
| `ScanDicomFiles.NaturalDataset` | src/scanDicomFiles.ts:45-51 | a failed file read gives its error; a read that succeeds but a `readFile` that throws gives the parser's error; otherwise naturalization receives the message's `dict` when present, else the message itself; a dataset comes out only when the read and the parse both returned normally |
| `JsValues.Truthy` | src/scanDicomFiles.ts:60 | ToBoolean: `undefined`, `null`, `false`, `0`, `NaN` and `""` are the falsy values, and every other modelled value is truthy |
| `JsValues.Coalesce` | src/scanDicomFiles.ts:54-58 | `a ?? b` is one of its operands: `a` unless `a` is nullish, then `b`; it is nullish iff both operands are |
| `JsValues.CoalesceAssociative` | src/scanDicomFiles.ts:54-58 | for all operands, `(a ?? b) ?? c` equals `a ?? (b ?? c)`: the grouping of a `??` chain does not change its value |
| `JsValues.OptionalMember` | src/scanDicomFiles.ts:55-58 | `v?.[key]` is `undefined` when `v` is nullish; on an object holding `key` it is that property's value; any other result than `undefined` comes from such a property |
| `ScanDicomFiles.ResolveStudyInstanceUid` | src/scanDicomFiles.ts:54-58 | the result is the value under the first key whose value is not nullish, or else the value under the last key: it is the value under some key all of whose predecessors hold nullish values, and unless that is the last key it is not nullish itself |
| `ScanDicomFiles.MissingStudyInstanceUid` | src/scanDicomFiles.ts:54-60 | missing iff every key the `??` chain reaches holds a falsy value |
| `ScanDicomFiles.CheckDicomForStudyInstanceUID` | src/scanDicomFiles.ts:43-65 | an error object thrown while reading, parsing or naturalizing means missing; the file is not missing iff a dataset was produced and some key the `??` chain reaches holds a truthy value |
| `ScanDicomFiles.EmptyNameShadowsTags` | src/scanDicomFiles.ts:54-60 | an empty string under `StudyInstanceUID` is the resolved value and the file is missing, whatever the tag keys hold |
| `ScanDicomFiles.AbsentKeysAreMissing` | src/scanDicomFiles.ts:57-60 | with none of the three keys present, the file is missing |
| `ScanDicomFiles.NonEmptyStringIsPresent` | src/scanDicomFiles.ts:60 | a non-empty string as resolved value means not missing |
| `ScanDicomFiles.BlankUidIsPresent` | src/scanDicomFiles.ts:60 | a StudyInstanceUID of one space is not missing: `!` tests falsiness, not blankness |
| `ScanDicomFiles.ScanDicomDirectory` | src/scanDicomFiles.ts:70-88 | aborts iff some enumerated file is unreadable, with the filter's error; otherwise the DICOM count is the number of files the detector accepts, and the missing list is `Keep` of the DICOM files under the check: it selects exactly the flagged DICOM files in order and is no longer than the DICOM count |
| `Sequences.KeepAppend` | src/scanDicomFiles.ts:80-82 | appending a file to the input appends it to the kept list exactly when it is flagged, which is what the `push` does |
| `Sequences.KeepSelects` | src/scanDicomFiles.ts:76-83 | the kept list is a subsequence of the input, holds only flagged elements and is as long as their count |
| `Sequences.SelectionBound` | src/scanDicomFiles.ts:76-83 | any subsequence made of flagged elements is no longer than the count of flagged elements |
| `Sequences.SelectionUnique` | src/scanDicomFiles.ts:76-83 | a subsequence made of flagged elements and as long as their count is the kept list, so the three properties pin the result down |
| `Sequences.KeepMembership` | src/scanDicomFiles.ts:76-83 | an element is in the kept list iff it is in the input and flagged |
| `Sequences.KeepSelectsExactly` | src/scanDicomFiles.ts:76-83 | the kept list is an order-preserving subsequence of flagged elements, as long as their count, containing every flagged element of the input |

## Left out

- `getAllFiles` (directory traversal with `fs.readdirSync` and `path.join`) is file-system I/O. The scan takes the enumerated paths as its input sequence.
- `fs.readFileSync` is the function `FileSystem`. The same function answers both reads of a file, so a file that changes between the detector's read and the check's read is not modelled.
- `DicomMessage.readFile` and `DicomMetaDictionary.naturalizeDataset` are foreign library code. They are parameters that return a value or throw; DICOM element parsing is not modelled.
- ScanDicomFiles.CheckDicomForStudyInstanceUID: assumes the foreign functions throw non-nullish values. If one threw `null` or `undefined`, `(error as Error).message` in the `catch` would itself throw a TypeError. That error would escape the check and the loop and end the scan; the model does not capture this.
- Console output (`Found N DICOM files.`, the `- path` lines, the error line in the `catch`) is formatting only. The model returns the count and the list; it drops the error message.
- The command line (`process.argv`, `process.exit`, `path.resolve`) is process plumbing.
- `Aborted` stands for the uncaught exception that ends the process. The scan then prints no count and no paths; the runtime reports the uncaught error on standard error and exits with a non-zero status. The model does not describe that report or the exit status.
- JavaScript numbers are reals plus `Infinity` and `NaN`. Rounding is irrelevant to truthiness. BigInt values and symbols are not modelled, since a naturalized dataset does not produce them under these keys.
- `OptionalMember` sees only an object's own properties. It ignores the prototype chain and properties of primitive wrappers, none of which use the three keys.
- JavaScript strings are UTF-16 code units, while Dafny characters are Unicode scalar values. For comparison with the ASCII string `DICM` the two agree.
- Utf8.Decode: states only the length bound. Its full behaviour is its body, and the detector relies on `DecodeAscii` and `DecodeOne`.
