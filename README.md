# Barnett point converter, modelled in Dafny

The converter turns Houdini ASCII point caches (`.pc.classic` /
`.bgeo.classic` text) into Maya particle disk caches (`.pdc`), one output
file per input file. A small process pool converts the files in parallel.
This project models the conversion and the pool's bookkeeping:

- **Scan** (`Scan.dfy`). The file text is cut into tokens at `[`, `]` and
  space. The scan loop then finds the position block and the id block:
  - the position block opens at the first blank token after the first
    `"P"` token and closes at the next quoted token;
  - the id block does the same after both the first `"P"` and the first
    `"id"` token.

  The loop is a method over its six latch variables. It is proved equal to
  a declarative statement of those boundaries.
- **Extraction** (`Extract.dfy`):
  - The two "strip trailing non-digits" loops are modelled, and so are the
    whitespace removal, the comma split and the grouping.
  - Positions keep the first three values of every six.
  - Ids are the comma fields after the first character.
  - `float()` of each field is a parameter, since Python's decimal reader
    is not part of this model.
  - Made-up ids `0.0 … N-1` are computed exactly, as IEEE-754 bit patterns
    (`Float64.dfy`).
- **The cache layout** (`Pdc.dfy`). The `struct` format
  `'>4sii2iii i8si{3N}d i10si{M}d'` is laid out as big-endian bytes. A
  reader for that layout is proved to get back exactly the coordinates and
  ids that were packed.
- **Naming** (`Naming.dfy`). This covers the frame increment
  `250 * (startframe + countfile)`, the file name
  `<particlesName>.<increment>.pdc` and the path `<outputDirectory>\Data\<file>`.
- **Conversion** (`Converter.dfy`). `Convert` chains the steps above. It
  also fixes which Python exception each failing input raises.
  `ConvertPcToPdc` runs the same steps as the source does, with the scan
  loop and the strip loops as methods, and is proved equal to `Convert`.
- **Dispatch** (`Dispatch.dfy`). `threadme` is a `Dispatcher` class with
  the source's lists (`srcfiles`, `countfiles`, the thread pool) as fields:
  - `Admit` pops files into workers until the pool is full.
  - `Sweep` removes finished workers.
  - `Run` repeats both for as many polling rounds as it is given.

  Which workers have finished at each poll is an input.

Behaviours of the code that the model keeps, and that a reader might not
expect:

- A final, incomplete group of position values is still kept when it has
  at least three values: the number of groups is `(fields + 3) // 6`,
  counting the `,,,` padding (`Extract.PositionsSpec`). No kept value ever
  comes from the padding (`Extract.KeptFieldIsReal`). Fewer than six
  fields in all gives the single field `''`, and `float('')` raises
  ValueError.
- The number of ids is not checked against the number of particles. The
  cache simply records as many ids as were read (`Pdc.Pack`).
- The id block starts at its opening blank token, and the first character
  of the joined text is dropped.
  - When that token is empty, the dropped character is the comma after it
    (`Extract.IdsAfterEmptyToken`).
  - When the token is a newline, the comma stays behind, and the first id
    field is empty and raises ValueError (`Extract.IdsAfterNewlineToken`).
- The sweep removes workers from the list it is walking. As in Python, the
  walk moves on after a removal, so the worker behind a removed one waits
  for the next round (`Dispatch.SweepOf`, `Dispatch.SweepSkipsNext`).

## Model

| member | source | states |
|---|---|---|
| Util.SplitInterleave | Barnett-PointConverter.py:195 | `str.split` on a separator set loses nothing. There is one more piece than separators, no piece holds a separator, and re-inserting the separators gives back the text. |
| Util.SplitAppend | Barnett-PointConverter.py:195 | Splitting after a separator-free prefix and one separator gives that prefix, then the split of the rest. |
| Util.SplitNoSep | Barnett-PointConverter.py:195 | Text without a separator splits into itself alone. |
| Util.SplitJoin | Barnett-PointConverter.py:182-195 | `sep.join` followed by `split(sep)` gives back the list, when no element holds the separator. |
| Util.JoinAppend | Barnett-PointConverter.py:182 | Joining two non-empty lists is joining each and putting one separator between them. |
| Util.BigEndianRoundTrip | Barnett-PointConverter.py:255-263 | Writing a number below 256^n as n big-endian bytes and reading it back gives the number. |
| Float64.NatToDouble | Barnett-PointConverter.py:205 | `float(i)` for an integer below 2^53: 0 for zero, otherwise the double with exponent 1023 + floor(log2 i) and the bits below the leading one as fraction. What it stands for is proved by `Float64.NatToDoubleExact`. |
| Float64.NatToDoubleFields | Barnett-PointConverter.py:205 | For 0 < i < 2^53, `float(i)` is positive, has biased exponent 1023 + floor(log2 i), and has fraction (i - 2^e)·2^(52-e). |
| Float64.NatToDoubleExact | Barnett-PointConverter.py:204-205 | For i < 2^53, `float(i)` stands for exactly the integer i. |
| Float64.DenotesUnique | Barnett-PointConverter.py:204-205 | A double stands for at most one integer. |
| Float64.NatToDoubleInjective | Barnett-PointConverter.py:204-206 | Distinct integers below 2^53 become distinct doubles. |
| Scan.Tokenize | Barnett-PointConverter.py:133 | The split of the file text at every `[`, `]` and space character, empty pieces kept (the pattern's empty alternative never splits in Python 2). `Scan.TokenizeLossless` proves it loses nothing. |
| Scan.TokenizeLossless | Barnett-PointConverter.py:133 | Tokenizing loses nothing. There is one token more than separators, no token holds `[`, `]` or space, and re-inserting the separators gives back the file text. |
| Scan.IsBlank | Barnett-PointConverter.py:154 | `search('$^', item)` holds exactly for the tokens `""` and `"\n"`, because `$` also matches before a final newline. `Scan.BlankIffEmptyMatch` states this against the anchors' own meaning. |
| Scan.BlankIffEmptyMatch | Barnett-PointConverter.py:154 | A token is blank exactly when some position is both the start of the text (`^`) and its end or the place just before a final newline (`$`). |
| Scan.NamesP | Barnett-PointConverter.py:146 | `search('"P"', item)`: the token contains the three characters `"P"` somewhere. |
| Scan.NamesId | Barnett-PointConverter.py:149 | `search('"id"', item)`: the token contains `"id"` somewhere. |
| Scan.HasQuote | Barnett-PointConverter.py:160 | `search('"', item)`: the token holds a double quote. |
| Scan.ScanSpec | Barnett-PointConverter.py:145-175 | The six names the loop leaves, stated without the loop. Each block opens at the first blank token after its naming token(s) and closes at the next quoted token. `Scan.ScanMatchesSpec` and `Scan.ScanTokens` prove the loop equal to it. |
| Scan.ContainsHasQuote | Barnett-PointConverter.py:146-160 | A token containing a pattern that starts with `"` contains a quote. |
| Scan.NamingTokenNotBlank | Barnett-PointConverter.py:146-175 | A `"P"` or `"id"` token is neither blank nor quote-free. So it can never open a block, and it closes one that is already open. |
| Scan.FirstIsFirst | Barnett-PointConverter.py:145-175 | The first-match search finds the least index at or after `lo` that satisfies the test. It finds nothing exactly when no index does. |
| Scan.ScanSpecFlags | Barnett-PointConverter.py:145-179 | `vartest` is set iff some token names `"P"`, and `vartest1` iff some token names `"id"`. An unset flag leaves its block's indices unset. A closing index implies an opening one. |
| Scan.PositionBlockBounds | Barnett-PointConverter.py:152-163 | `index3` is the first blank token after the first `"P"`, and `index4` is the first quoted token after `index3`. Each is unset exactly when no such token exists. |
| Scan.IdBlockBounds | Barnett-PointConverter.py:164-175 | `index5` is the first blank token after both the first `"P"` and the first `"id"`, and `index6` is the first quoted token after `index5`. Each is unset exactly when no such token exists. |
| Scan.BoundsOrdered | Barnett-PointConverter.py:176-177 | When set, the indices lie in the token list, ordered as first `"P"` < `index3` < `index4`, and first `"id"`, first `"P"` < `index5` < `index6`. So the slices taken at lines 177 and 208 are in range. |
| Scan.BlockStep | Barnett-PointConverter.py:152-175 | One token of a block search: latch the first blank token after the naming token, then the first quoted token after it. `Scan.BlockStepTracks` proves it keeps the first-match invariant. |
| Scan.Step | Barnett-PointConverter.py:145-175 | One iteration of the scan loop: update the naming flags and their last indices, then run the position block step once `vartest` is set and the id block step once both flags are set. `Scan.NamesLatched`, `Scan.PositionLatched` and `Scan.IdLatched` state what it keeps. |
| Scan.FoundStep | Barnett-PointConverter.py:145 | One more token of the loop finds the first match exactly when that token is the match. |
| Scan.NamesLatched | Barnett-PointConverter.py:145-151 | After k tokens, `vartest` (`vartest1`) is set exactly when a `"P"` (`"id"`) token has been seen, and `index1` (`index2`) points before k. |
| Scan.BlockStepTracks | Barnett-PointConverter.py:153-163 | One step of a block search keeps its latches equal to the first blank token seen so far and the first quoted token after it. |
| Scan.PositionLatched | Barnett-PointConverter.py:152-163 | After k tokens, `vartesta`/`index3` and `vartestb`/`index4` record exactly the opening and closing tokens of the position block seen so far. Without a `"P"` token they stay unset. |
| Scan.IdLatched | Barnett-PointConverter.py:164-175 | After k tokens, `vartestc`/`index5` and `vartestd`/`index6` record exactly the opening and closing tokens of the id block seen so far. Without both naming tokens they stay unset. |
| Scan.PositionOutcome | Barnett-PointConverter.py:145-163 | After the whole loop, the flags, `index3` and `index4` agree with the declarative boundaries. |
| Scan.IdOutcome | Barnett-PointConverter.py:164-175 | After the whole loop, `index5` and `index6` agree with the declarative boundaries. |
| Scan.ScanMatchesSpec | Barnett-PointConverter.py:145-175 | The loop's final state gives exactly the declarative boundaries. |
| Scan.AdvanceBlock | Barnett-PointConverter.py:153-163 | The nested `if`s of one block search make exactly one latch step. |
| Scan.ScanTokens | Barnett-PointConverter.py:145-175 | The scan loop over all tokens returns exactly the declarative boundaries. |
| Extract.Stripped | Barnett-PointConverter.py:184-189 | The strip loop gives text that is non-empty and ends in a digit. Its only failure is the IndexError on empty text. |
| Extract.StrippedSpec | Barnett-PointConverter.py:184-189 | The loop fails exactly when the text has no digit. Otherwise it keeps the longest prefix ending in a digit, having removed only non-digits. |
| Extract.StrippedIdempotent | Barnett-PointConverter.py:184-189 | Stripping stripped text changes nothing. |
| Extract.StripTrailingNonDigits | Barnett-PointConverter.py:184-189 | The `while running` loop (also lines 212-217 for the ids) computes exactly the stripped text, or the IndexError. |
| Extract.RemoveWhitespace | Barnett-PointConverter.py:193 | `''.join(s.split())` leaves no whitespace and is no longer than `s`. `Extract.RemoveWhitespaceCounts` and `Extract.RemoveWhitespaceChar` state what is removed. |
| Extract.RemoveWhitespaceAppend | Barnett-PointConverter.py:193 | Whitespace removal distributes over concatenation. |
| Extract.RemoveWhitespaceClean | Barnett-PointConverter.py:193 | Text without whitespace is left unchanged. |
| Extract.RemoveWhitespaceIdempotent | Barnett-PointConverter.py:193 | Removing whitespace twice removes nothing more. |
| Extract.RemoveWhitespaceCounts | Barnett-PointConverter.py:193 | Every character other than whitespace keeps its count, and no whitespace character is left. |
| Extract.RemoveWhitespaceChar | Barnett-PointConverter.py:193 | A lone whitespace character vanishes and any other character stays. With `Extract.RemoveWhitespaceAppend` this fixes the function on every text. |
| Extract.TrimLeft | Barnett-PointConverter.py:221 | The left half of `strip()` is the suffix after the leading whitespace, and it does not start with whitespace. |
| Extract.TrimRight | Barnett-PointConverter.py:221 | The right half of `strip()` is the prefix before the trailing whitespace, and it does not end with whitespace. |
| Extract.TrimSlice | Barnett-PointConverter.py:221 | `strip()` gives a contiguous slice of the field. |
| Extract.TrimSurround | Barnett-PointConverter.py:221 | Only whitespace lies before and after that slice. |
| Extract.StripField | Barnett-PointConverter.py:221 | `strip()` gives the slice of the field between leading and trailing whitespace, and it neither starts nor ends with whitespace. |
| Extract.SplitConcat | Barnett-PointConverter.py:195 | Splitting at a separator splits the pieces on both sides apart. |
| Extract.SplitAvoids | Barnett-PointConverter.py:193-195 | Pieces of text that avoids some characters avoid them too. After whitespace removal, no field holds a space. |
| Extract.PadFields | Barnett-PointConverter.py:190-195 | Appending `,,,` adds exactly three empty fields. |
| Extract.KeptIndex | Barnett-PointConverter.py:196 | The grouping keeps 3·(fields // 6) values, and value j is field 6·(j//3) + j%3. |
| Extract.GroupFieldShift | Barnett-PointConverter.py:196 | Each later group of three kept values comes from six fields further on. |
| Extract.JoinGroups | Barnett-PointConverter.py:196-197 | Joining the group strings with spaces equals joining the kept values with spaces. |
| Extract.OutputsKept | Barnett-PointConverter.py:196-198 | Joining the groups and splitting on spaces gives the kept values when there are at least six fields, and `['']` otherwise. |
| Extract.FloatOf | Barnett-PointConverter.py:199 | `float(f)` on one field: the empty field always raises ValueError, whatever the decimal reader; other fields go to the reader. |
| Extract.ParseAllSpec | Barnett-PointConverter.py:199 | `tuple(float(f) for f in …)` succeeds exactly when every field parses, giving one double per field in order. Otherwise it raises ValueError. |
| Extract.PaddedFieldsShape | Barnett-PointConverter.py:190-195 | The fields are the comma split of the whitespace-free stripped text plus three empty fields, and none holds a space. |
| Extract.Positions | Barnett-PointConverter.py:182-199 | The coordinates of one position block: join, strip the trailing non-digits, pad, remove whitespace, split, keep three of every six fields, parse. `Extract.PositionsSpec` states the result. |
| Extract.GroupedText | Barnett-PointConverter.py:190-199 | For any stripped text, padding with `,,,`, removing whitespace, splitting on commas and keeping three of every six fields gives 3·((F+3)//6) values, value j the parse of comma field 6·(j//3)+j%3; ValueError when a kept field does not parse or no group forms. |
| Extract.PositionsSpec | Barnett-PointConverter.py:182-199 | The coordinates are 3·((F+3)//6) doubles for F comma fields of the stripped text, value j being the parse of field 6·(j//3)+j%3. The errors are IndexError for text without a digit and ValueError for an unparsable kept field or no group at all. |
| Extract.OneGroupExample | Barnett-PointConverter.py:182-199 | The block `1,2,3,0,0,1` gives the single position (1, 2, 3). |
| Extract.ExampleFields | Barnett-PointConverter.py:190-198 | The text `1,2,3,0,0,1` groups to the fields `1`, `2`, `3`. |
| Extract.KeptFieldIsReal | Barnett-PointConverter.py:190-196 | Every kept value's field index lies below the number of real fields, so none comes from the padding. |
| Extract.TrimAll | Barnett-PointConverter.py:221 | `x.strip()` applied to each id field, with one result per field. `Extract.StripField`, `Extract.TrimSlice` and `Extract.TrimSurround` state what each one is. |
| Extract.ParseTrimmed | Barnett-PointConverter.py:221 | Parsing the stripped fields gives one double per field, each the parse of that field without surrounding whitespace, or ValueError. |
| Extract.Ids | Barnett-PointConverter.py:207-222 | The ids of one id block: join, strip the trailing non-digits, drop the first character, split on commas, strip each field, parse. `Extract.IdsSpec` states the result. |
| Extract.IdsSpec | Barnett-PointConverter.py:207-222 | The ids are one double per comma field of the stripped id text minus its first character, with no grouping. The errors are IndexError without a digit and ValueError for a bad field. |
| Extract.IdsAfterEmptyToken | Barnett-PointConverter.py:208-221 | An id block opened by an empty token gives its values, e.g. `['', '1']` gives (1.0,). |
| Extract.IdsAfterNewlineToken | Barnett-PointConverter.py:208-221 | An id block opened by a `\n` token keeps a leading comma, e.g. `['\n', '1']` raises ValueError. |
| Extract.SynthIds | Barnett-PointConverter.py:201-206 | `tuple(float(x) for x in range(n))`. `Extract.SynthIdsExact` proves the i-th id stands for i. |
| Extract.SynthIdsExact | Barnett-PointConverter.py:201-206 | The made-up ids are N doubles, the i-th standing for exactly i, and pairwise distinct. |
| Pdc.Int32 | Barnett-PointConverter.py:255 | An `i` field is four bytes. |
| Pdc.Int32RoundTrip | Barnett-PointConverter.py:255 | A signed 32-bit value written big-endian reads back unchanged. |
| Pdc.Int32sRoundTrip | Barnett-PointConverter.py:240-255 | A run of `i` fields reads back unchanged. |
| Pdc.DoublesRoundTrip | Barnett-PointConverter.py:242-254 | A run of `d` fields reads back as the same doubles. |
| Pdc.Header | Barnett-PointConverter.py:230-255 | The `>4sii2iii` header is 28 bytes. |
| Pdc.Record | Barnett-PointConverter.py:242-254 | An `i{len}si{count}d` record is 8 + len + 8·count bytes. |
| Pdc.Pack | Barnett-PointConverter.py:251-263 | `form.pack(*allValues)`: the header with N = len(coords) // 3, then the `position` record and the `particleId` record. It raises struct.error when the values do not fit. `Pdc.PackRoundTrip`, `Pdc.PackLength`, `Pdc.PackFails` and `Pdc.PackInjective` state the result. |
| Pdc.UnpackShape | Barnett-PointConverter.py:251-256 | Whatever the reader decodes has three coordinates per particle and a particle count that fits an `i` field. |
| Pdc.HeaderFields | Barnett-PointConverter.py:230-241 | Reading the header back checks `PDC `, version 1, byte order 1, the two zero extras and attribute count 2, and returns the particle count. |
| Pdc.UnpackRecordOf | Barnett-PointConverter.py:242-254 | Reading a record back returns its values and the bytes after it. |
| Pdc.PackFails | Barnett-PointConverter.py:251-263 | `pack` raises struct.error exactly when no file a reader can decode holds these coordinates and ids for len(coords) // 3 particles, i.e. when the values do not fit the layout. |
| Pdc.PackLength | Barnett-PointConverter.py:251-263 | A packed cache is 62 + 24·N + 8·M bytes for N particles and M ids. |
| Pdc.PackRoundTrip | Barnett-PointConverter.py:225-263 | A reader of the layout recovers exactly the particle count, the coordinates and the ids. |
| Pdc.PackInjective | Barnett-PointConverter.py:225-263 | Different coordinates or ids never pack to the same bytes. |
| Naming.Increment | Barnett-PointConverter.py:305 | `250 * (startframe + countfile)`. `Naming.IncrementInjective` proves different indices give different increments. |
| Naming.IncrementInjective | Barnett-PointConverter.py:305 | Different file indices give different increments. |
| Naming.NatToString | Barnett-PointConverter.py:268 | `str(n)` is decimal digits with no leading zero. |
| Naming.NatToStringRoundTrip | Barnett-PointConverter.py:268 | The digits of `str(n)` read back as n. |
| Naming.IntToStringRoundTrip | Barnett-PointConverter.py:268 | `str(i)` of any integer reads back as i. |
| Naming.FileName | Barnett-PointConverter.py:268 | `particlesName + '.' + str(pdcIncrements) + ".pdc"`. `Naming.FileNameInjective` proves the increment can be read back from it. |
| Naming.OutputPath | Barnett-PointConverter.py:269 | The file goes into the `Data` folder of the output directory, with the Windows separator. |
| Naming.FileNameInjective | Barnett-PointConverter.py:268 | Under one particle name, different increments give different file names. |
| Naming.OutputNamesDistinct | Barnett-PointConverter.py:268 | The files of two different input indices, whose increments line 305 computes, never share a name. |
| Converter.Convert | Barnett-PointConverter.py:124-269 | The whole conversion as one function: the output, or the exception raised, in the order the source raises them (RuntimeError, unbound index3/index4, the position errors, then the id errors or struct.error). `Converter.ConvertSuccess` and `Converter.NoCoordsIffRuntimeError` state the result. |
| Converter.ConvertPcToPdc | Barnett-PointConverter.py:133-269 | The step-by-step conversion returns exactly what `Convert` gives: the output, or the exception raised. |
| Converter.CoordTokens | Barnett-PointConverter.py:177 | `content[index3 + 1:index4]`: the tokens strictly between the opening blank token and the closing quoted one. None of them holds a quote. |
| Converter.IdTokens | Barnett-PointConverter.py:208 | `content[index5:index6]`: the id block starts with its opening blank token (`""` or `"\n"`), which the `[1:]` on line 218 later meets. No token after it holds a quote. |
| Converter.Finish | Barnett-PointConverter.py:251-269 | Packs, then names the file `Data\<particlesName>.<increment>.pdc`; a packing failure propagates. `Converter.FinishSpec` states the decoded contents, the length, the path and the flag. |
| Converter.NoCoordsIffRuntimeError | Barnett-PointConverter.py:176-179 | RuntimeError is raised exactly when no token names `"P"`. |
| Converter.FinishSpec | Barnett-PointConverter.py:225-269 | A packed result decodes to exactly its coordinates and ids, has 62 + 24·N + 8·M bytes, and carries the named path and the `noIds` flag. |
| Converter.ConvertSuccess | Barnett-PointConverter.py:124-275 | A successful conversion's bytes decode to the extracted coordinates and ids, at `<dir>\Data\<name>.<increment>.pdc`. `noIds` is set iff there is no `"id"` token, and then the ids are exactly 0.0 … N-1. |
| Dispatch.Range | Barnett-PointConverter.py:318 | `range(n)` is `0 … n-1`. |
| Dispatch.Popped | Barnett-PointConverter.py:324-326 | Popping k files in lockstep with their indices gives the last k files, last first, each with its own index. |
| Dispatch.AllStartedOnce | Barnett-PointConverter.py:317-329 | Popping every file starts `infiles[i]` exactly once, with index i, in decreasing index order. |
| Dispatch.JobNamesDistinct | Barnett-PointConverter.py:324-326 | Two workers of one run, each naming its file after its own index (line 305), never write the same cache file. |
| Dispatch.LaunchedIndices | Barnett-PointConverter.py:324-326 | A started worker's index is at least the number of files still pending. |
| Dispatch.AdmitStep | Barnett-PointConverter.py:324-329 | One admission pops the last pending file with its own index and keeps the bookkeeping consistent. |
| Dispatch.AdmittedStep | Barnett-PointConverter.py:321-329 | One admission extends the popped suffix by one worker in both the pool and the started list. |
| Dispatch.RemoveStep | Barnett-PointConverter.py:333 | Removing one worker from the pool keeps the bookkeeping consistent. |
| Dispatch.SweepOf | Barnett-PointConverter.py:330-333 | The pool after one `for thr in threadpool` pass: a finished worker is removed and the walk moves to the next index. |
| Dispatch.SweepNoneFinished | Barnett-PointConverter.py:330-333 | When no worker has finished, the sweep leaves the pool unchanged. |
| Dispatch.SweepSkipsNext | Barnett-PointConverter.py:330-333 | Of two finished workers side by side, only the first leaves in this round: the second slides into its place and is passed over. |
| Dispatch.SweepRemovesFinished | Barnett-PointConverter.py:330-333 | A finished worker behind a running one is removed and the running one stays, in order. |
| Dispatch.SweepWalk | Barnett-PointConverter.py:330-333 | Finishing a walk from any point of the sweep invariant keeps only workers from the original pool, keeps every running one, and removes one if any has finished. |
| Dispatch.SweepOfSpec | Barnett-PointConverter.py:330-333 | One sweep removes only finished workers, keeps every running one, and removes at least one when any has finished. |
| Dispatch.WalkKeep | Barnett-PointConverter.py:330-332 | Passing over a running worker keeps the sweep's invariant. |
| Dispatch.WalkRemove | Barnett-PointConverter.py:330-333 | Removing a finished worker and moving on, which skips the next worker, keeps the sweep's invariant. |
| Dispatch.Dispatcher.constructor | Barnett-PointConverter.py:315-319 | The dispatcher starts with every file pending, its indices `range(n)`, and no worker. |
| Dispatch.Dispatcher.Admit | Barnett-PointConverter.py:321-329 | It starts min(pending, free slots) workers for the last pending files, last first, with their own indices. Afterwards nothing is pending or the pool is full. |
| Dispatch.Dispatcher.Sweep | Barnett-PointConverter.py:330-333 | The new pool is exactly `Dispatch.SweepOf` of the old pool, including the skipped worker behind each removal. It keeps only workers it had, only finished workers leave it, and at least one leaves if any has finished. Pending files and started workers are unchanged. |
| Dispatch.Dispatcher.Run | Barnett-PointConverter.py:320-333 | The rounds stop early only when nothing is pending and the pool is empty. Once nothing is pending, every file has been started exactly once, last first. |
| Dispatch.Threadme | Barnett-PointConverter.py:312-334 | The workers started are always the last k input files, last first. When all work is done they are all the files, each once with its own index. |

## Left out

- Reading the input file and writing the cache file (lines 131-134 and 269-271) are left out. The text read and the bytes written are values.
- The timing prints, the `print` lines, the print lock and the DeprecationWarning of lines 275-279 are left out. Only the `noIds` flag behind the warning is kept.
- `float()` on text is a parameter (`parse`), because Python's decimal-to-binary reader is not part of this model. An empty field always fails.
- Processes, `start`, `join(timeout)` and `is_alive` are left out. Which workers have finished at each poll is an input to `Sweep` and `Run`, and each worker's conversion is `Convert` on its own file.
- `Dispatch.Dispatcher.Run` is given a finite schedule of polls, so it cannot state that the source's `while` loop terminates. That depends on the workers finishing.
- The `threadlimit is None` branch of line 322 is left out: the assertion on line 315 already rejects `None`. The thread limit is a positive number, which the constructor requires.
- `startframe`, `endframe` and `questionasked` are passed through by the source and never used inside the conversion. Only `startframe` enters the increment on line 305.
- `Converter.Convert`: when there is no `"id"` token and more than 2^31-1 particles, the model reports struct.error straight away. Python would first build the list of made-up ids and could run out of memory before reaching `pack`.
- `threadedFuntion` (lines 281-284) is left out: it only calls `threadme` with a limit of 6.
- The Qt dialog `Ui_Dialog` and the Maya importer `Barnett-PointImporter.py` are left out. They are user interface and Maya scene code, and are not part of this model.
