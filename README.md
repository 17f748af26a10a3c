# XmlTimeUniqueifier: a verified model of the file mover and its uniqueifiers

XmlTimeUniqueifier watches a source directory of XML event files. Each file
carries an `Event/@EventDate` of minute precision (`2016-01-01T10:15`) and a
`Patient/@PatientCode`. The service moves every file to a destination directory.
On the way it makes the event date unique per patient by appending seconds:
the first offset `:00` … `:59` not yet handed out for that (date, patient)
pair. Two interchangeable engines remember what was handed out:

- `MemoryUniqueifier`: a hash set kept in step with a FIFO queue. The oldest
  entries are forgotten once the queue grows past 110% of the configured
  history.
- `DbUniqueifier`: an `Events` table with a cached row count. When the count
  grows past 110% of the history, the rows beyond the `history` most recently
  created ones are deleted.

`FileMover` checks the three directories when it is built. On each pass it
does one of the following with every file under the source tree:

- leaves it for the next pass (missing or locked);
- moves it unchanged (not XML, or XML that cannot be parsed or made unique);
- saves it to the destination with the new event date, then deletes the
  source;
- if processing throws, moves it to the error directory under a `.<ticks>`
  suffix. It throws when the name is already in the destination, or when the
  exclusive open in `IsFileLocked` fails with anything other than an
  `IOException`, such as the `UnauthorizedAccessException` of a read-only
  file.

The model has four modules:

- `Offsets`: the `{0}:{1:D2}` candidate format shared by both engines. It is
  proved injective and invertible. It also covers the colon count that
  `ProcessFile` uses to recognise a date that already has seconds.
- `MemoryEngine`: `class MemoryUniqueifier`, with the set and the queue as
  fields; `Uniquify` has its loop and the `finally` sweep. It is proved
  against the pure one-call function `Step`, built from `Choose` (first free
  offset) and `Sweep`.
- `DbEngine`: `class DbUniqueifier`, with the table as a sequence of rows and
  the cached count as a field; `Uniquify` has the query, the loop and the
  cleanup. It is proved against `Step`, built from the same `Choose` and from
  `Newest` (the `OrderByDescending(Created).Skip(history)` retention rule).
- `Mover`: the path helpers, `TryGetAttribute`, the directory checks, the tick
  suffix and the routing of one file. The routing is pure functions
  (`ProcessFileSpec`, `FileStep`, `Pass`) that take the uniqueifier as a
  function parameter, the interface `IUniqueifier`, so the routing lemmas
  hold for any engine. `class FileMover` holds the directories as maps and
  one of the two engine objects. Its `ProcessFile` and `ProcessFiles` are
  proved to do what `ProcessFileSpec` and `Pass` say with the real engines
  (`Ask`).

The floating-point guard `count > history * 1.1` is written as the exact
integer test `10 * count > 11 * history`. Both sources run their cleanup in a
`finally`, so the model sweeps after an exhausted call too. The memory
variant sweeps only when `history > 1`. The durable variant enters `Cleanup`
on the 110% test alone, and `Cleanup` returns at once when `history < 1`.
The model keeps both guards exactly as the code writes them.

## Model

| member | source | states |
|---|---|---|
| Offsets.Candidate | XmlTimeUniqueifier/Processing/MemoryUniqueifier.cs:59 | the candidate is the event date, a `:` at its end and two more characters, three longer in all |
| Offsets.TwoDigits | XmlTimeUniqueifier/Processing/DbUniqueifier.cs:62 | the `D2` format gives exactly two decimal digits |
| Offsets.TwoDigitsValue | XmlTimeUniqueifier/Processing/DbUniqueifier.cs:62 | the two digits read back as the offset they were formatted from |
| Offsets.SplitCandidate | XmlTimeUniqueifier/Processing/MemoryUniqueifier.cs:59 | a string read back as a candidate really is that event date with that two-digit offset |
| Offsets.CandidateRoundTrip | XmlTimeUniqueifier/Processing/MemoryUniqueifier.cs:59 | reading a candidate back gives its event date and offset |
| Offsets.CandidateInjective | XmlTimeUniqueifier/Processing/MemoryUniqueifier.cs:57-66 | two candidates are equal exactly when event date and offset both are, so the 60 tries are 60 different keys |
| Offsets.ColonCountConcat | XmlTimeUniqueifier/Processing/FileMover.cs:200 | the colon count of a concatenation is the sum of the counts |
| Offsets.CandidateColons | XmlTimeUniqueifier/Processing/FileMover.cs:199-203 | a candidate has exactly one more `:` than the event date it came from |
| MemoryEngine.FreeOffset | XmlTimeUniqueifier/Processing/MemoryUniqueifier.cs:57-67 | a free offset found from `from` on lies between `from` and 59 |
| MemoryEngine.FreeOffsetIsFirst | XmlTimeUniqueifier/Processing/MemoryUniqueifier.cs:57-67 | the loop from `from` returns the first unclaimed offset, and nothing exactly when all from `from` to 59 are claimed |
| MemoryEngine.ChooseIsFirstFree | XmlTimeUniqueifier/Processing/MemoryUniqueifier.cs:57-67 | the answer is the candidate of the smallest unclaimed offset, and exhaustion happens exactly when all 60 candidates are claimed |
| MemoryEngine.ChooseClaimsFree | XmlTimeUniqueifier/Processing/MemoryUniqueifier.cs:61-65 | the entry handed out was not in the set |
| MemoryEngine.Choose | XmlTimeUniqueifier/Processing/MemoryUniqueifier.cs:57-67 | the loop's answer: the candidate of the first unclaimed offset, or the exhaustion error; `ChooseIsFirstFree` proves it is the smallest free offset and that it fails exactly when all 60 are claimed |
| MemoryEngine.Sweep | XmlTimeUniqueifier/Processing/MemoryUniqueifier.cs:72-78 | the `finally` sweep: when `history > 1` and the queue is past 110%, only its last `history` entries stay; `SweepEvictsOldest` proves these are the newest claims |
| MemoryEngine.Step | XmlTimeUniqueifier/Processing/MemoryUniqueifier.cs:49-84 | one call: `Choose` over the elements, the claim appended, then `Sweep`; `StepKeepsDistinct`, `StepClaimIsNewest`, `StepExhaustedClaimsNothing` and `StepBounded` state what it keeps |
| MemoryEngine.MemoryUniqueifier.constructor | XmlTimeUniqueifier/Processing/MemoryUniqueifier.cs:28-41 | the history is the given length; set and queue start empty and in step |
| MemoryEngine.MemoryUniqueifier.Uniquify | XmlTimeUniqueifier/Processing/MemoryUniqueifier.cs:49-84 | answer and new queue are those of `Step` (first free offset, then the `finally` sweep); the set stays the queue's elements, with no duplicates |
| MemoryEngine.MemoryUniqueifier.EvictOldest | XmlTimeUniqueifier/Processing/MemoryUniqueifier.cs:71-78 | the queue becomes `Sweep` of the old queue; set and queue stay in step |
| MemoryEngine.DistinctSuffix | XmlTimeUniqueifier/Processing/MemoryUniqueifier.cs:74-77 | dequeuing from the front keeps the queue free of duplicates |
| MemoryEngine.DistinctAppend | XmlTimeUniqueifier/Processing/MemoryUniqueifier.cs:61-64 | enqueuing an entry the set lacks keeps the queue free of duplicates |
| MemoryEngine.DistinctAppendClaimed | XmlTimeUniqueifier/Processing/MemoryUniqueifier.cs:61-64 | claiming keeps the queue duplicate-free, and the set grows by exactly the claimed entry |
| MemoryEngine.StepKeepsDistinct | XmlTimeUniqueifier/Processing/MemoryUniqueifier.cs:49-84 | one call never brings a duplicate into the queue, which is why `HashSet` and `Queue` stay in step |
| MemoryEngine.StepClaimIsNewest | XmlTimeUniqueifier/Processing/MemoryUniqueifier.cs:63-77 | on success the claimed entry is the last in the queue and survives the sweep |
| MemoryEngine.StepExhaustedClaimsNothing | XmlTimeUniqueifier/Processing/MemoryUniqueifier.cs:69-83 | the exhausted call adds nothing; the queue afterwards is a suffix of the old one, and unchanged unless it was already overfull |
| MemoryEngine.SweepEvictsOldest | XmlTimeUniqueifier/Processing/MemoryUniqueifier.cs:72-78 | a sweep that fires leaves exactly `history` entries and removes a prefix, the oldest claims; otherwise it changes nothing |
| MemoryEngine.StepBounded | XmlTimeUniqueifier/Processing/MemoryUniqueifier.cs:71-78 | with `history > 1` the queue never stays above 110% of the history after a call |
| MemoryEngine.SmallHistoryNeverEvicts | XmlTimeUniqueifier/Processing/MemoryUniqueifier.cs:72 | with `history <= 1` nothing is forgotten: the queue only grows by the claim |
| MemoryEngine.StepAfterClaimedBelow | XmlTimeUniqueifier/Processing/MemoryUniqueifier.cs:57-78 | when one more entry cannot make the queue overfull (so no sweep fires), once offsets 0..m-1 are taken for a key, the next call takes offset m, or fails when m is 60 |
| MemoryEngine.RepeatFrom | XmlTimeUniqueifier/Processing/MemoryUniqueifier.cs:49-84 | when n more entries cannot make the queue overfull, n more calls give offsets m, m+1, … and then exhaustion |
| MemoryEngine.ExpectedCons | XmlTimeUniqueifier/Processing/MemoryUniqueifier.cs:57-67 | the answer sequence for offset m is the answer for m followed by the sequence for the next offset |
| MemoryEngine.SixtyThenExhausted | XmlTimeUniqueifier/Processing/MemoryUniqueifier.cs:49-84 | as long as no sweep fires during the 61 calls (always when `history <= 1`, otherwise when 61 more entries cannot make the queue overfull), a fresh key gets 60 pairwise distinct answers, and the 61st call throws "Unique file name cannot be created" |
| MemoryEngine.ExpectedAnswers | XmlTimeUniqueifier/Processing/MemoryUniqueifier.cs:57-67 | the answers for offsets 0..60 are 60 distinct candidates followed by exhaustion |
| MemoryEngine.SixtyFromFresh | XmlTimeUniqueifier/Processing/MemoryUniqueifier.cs:38-84 | a freshly built uniqueifier whose history is at most 1 or at least 56 (so no sweep can fire in 61 calls) gives a key 60 distinct answers, and the 61st call throws |
| DbEngine.PrefilterMembers | XmlTimeUniqueifier/Processing/DbUniqueifier.cs:59 | the query keeps exactly the patient's rows whose date starts with the given one |
| DbEngine.Prefilter | XmlTimeUniqueifier/Processing/DbUniqueifier.cs:59 | the `Where(...).ToList()` query in store order; `PrefilterMembers` proves which rows it keeps |
| DbEngine.FirstWithDate | XmlTimeUniqueifier/Processing/DbUniqueifier.cs:64 | `FirstOrDefault` on the fetched list; `FirstWithDateFinds` proves what it finds |
| DbEngine.FirstWithDateFinds | XmlTimeUniqueifier/Processing/DbUniqueifier.cs:64 | `FirstOrDefault` finds a listed row with the date, and finds nothing exactly when no listed row has it |
| DbEngine.PrefilterKeepsCandidates | XmlTimeUniqueifier/Processing/DbUniqueifier.cs:59-64 | the `StartsWith` prefilter cannot change the test: a candidate is absent from the list exactly when the table lacks that (date, patient) pair |
| DbEngine.SearchAgrees | XmlTimeUniqueifier/Processing/DbUniqueifier.cs:60-75 | the loop over the query's list stops exactly where `Choose` stops over the table's pairs |
| DbEngine.OldestIndex | XmlTimeUniqueifier/Processing/DbUniqueifier.cs:98 | the row the descending sort puts last has the smallest `Created`; the model breaks ties by taking the last of them in store order |
| DbEngine.DbUniqueifier.constructor | XmlTimeUniqueifier/Processing/DbUniqueifier.cs:41-45 | the cached count is read from the table |
| DbEngine.Newest | XmlTimeUniqueifier/Processing/DbUniqueifier.cs:98-99 | the rows left by `OrderByDescending(Created).Skip(history)` and `RemoveRange`; `NewestKeepsLatest` proves their number, that none is new, and that they are the most recently created |
| DbEngine.Cleaned | XmlTimeUniqueifier/Processing/DbUniqueifier.cs:90-101 | `Cleanup` on the table: all rows when `history < 1`, otherwise `Newest` |
| DbEngine.Step | XmlTimeUniqueifier/Processing/DbUniqueifier.cs:53-85 | one call: `Choose` over the table's pairs, the new row appended on success, then `Cleaned` when the count passes 110%; `VariantsAgree` and `StepBounded` relate it to the in-memory variant and bound it |
| DbEngine.DbUniqueifier.Uniquify | XmlTimeUniqueifier/Processing/DbUniqueifier.cs:53-85 | answer and new table are those of `Step`; the count stays the row count, and grows by one on a success that triggers no cleanup; an exhausted call with no cleanup leaves the table alone |
| DbEngine.DbUniqueifier.Cleanup | XmlTimeUniqueifier/Processing/DbUniqueifier.cs:90-101 | the table becomes `Cleaned` of the old one: all of it when `history < 1`, otherwise the newest `history` rows, with the count recomputed |
| DbEngine.WithoutMultiset | XmlTimeUniqueifier/Processing/DbUniqueifier.cs:98-99 | removing one row removes exactly that row from the table |
| DbEngine.NewestSize | XmlTimeUniqueifier/Processing/DbUniqueifier.cs:98-99 | `Skip(history)` keeps min(rows, history) rows |
| DbEngine.NewestSubset | XmlTimeUniqueifier/Processing/DbUniqueifier.cs:98-99 | the cleanup only removes rows, it adds none |
| DbEngine.NewestOrder | XmlTimeUniqueifier/Processing/DbUniqueifier.cs:98-99 | every removed row was created no later than every kept row |
| DbEngine.NewestKeepsLatest | XmlTimeUniqueifier/Processing/DbUniqueifier.cs:98-100 | the three retention facts together: size, sub-multiset, and order by `Created` |
| DbEngine.StepBounded | XmlTimeUniqueifier/Processing/DbUniqueifier.cs:77-83 | with `history >= 1` the table never stays above 110% of the history after a call |
| DbEngine.VariantsAgree | XmlTimeUniqueifier/Processing/DbUniqueifier.cs:59-70 | with the same remembered pairs, the durable and the in-memory engine give the same answer |
| Mover.LastIndexOf | XmlTimeUniqueifier/Processing/FileMover.cs:180 | the position found holds the character, and no later position does; nothing is found exactly when it does not occur |
| Mover.FileNameShape | XmlTimeUniqueifier/Processing/FileMover.cs:173 | `FileInfo.Name` is a suffix of the path with no `\`; a path without `\` is its own name |
| Mover.FileName | XmlTimeUniqueifier/Processing/FileMover.cs:173 | `FileInfo.Name`: the path after its last `\`; `FileNameShape` states its shape |
| Mover.ExtensionShape | XmlTimeUniqueifier/Processing/FileMover.cs:180 | `FileInfo.Extension` is a suffix of the name: empty, or a `.` with at least one character after it and no other `.` |
| Mover.Extension | XmlTimeUniqueifier/Processing/FileMover.cs:180 | `FileInfo.Extension`: from the last `.` on, empty without one or when it is last; `ExtensionShape` states its shape |
| Mover.IsXml | XmlTimeUniqueifier/Processing/FileMover.cs:180 | `string.Compare(file.Extension, ".xml", true) == 0`; `IsXmlEndsWith` characterises it |
| Mover.IsXmlEndsWith | XmlTimeUniqueifier/Processing/FileMover.cs:180 | a file takes the XML path exactly when its name ends in `.xml` in any mix of cases |
| Mover.WithTrailingSeparator | XmlTimeUniqueifier/Processing/FileMover.cs:64-67 | the result ends in `\`, starts with the input, and is at most one character longer |
| Mover.WithTrailingSeparatorIdempotent | XmlTimeUniqueifier/Processing/FileMover.cs:64-67 | normalising twice is normalising once; a path already ending in `\` is kept |
| Mover.DecimalString | XmlTimeUniqueifier/Processing/FileMover.cs:142 | the tick count is written as a non-empty string of decimal digits |
| Mover.DecimalRoundTrip | XmlTimeUniqueifier/Processing/FileMover.cs:142 | the digits read back as the tick count |
| Mover.QuarantineNamesDistinct | XmlTimeUniqueifier/Processing/FileMover.cs:141-142 | two error names for one file are equal exactly when their ticks are |
| Mover.QuarantineName | XmlTimeUniqueifier/Processing/FileMover.cs:142 | `Name + "." + Ticks`; `QuarantineNamesDistinct` proves distinct ticks give distinct names |
| Mover.ValidateDirectories | XmlTimeUniqueifier/Processing/FileMover.cs:54-83 | the first missing directory, in the constructor's order, is the error, each case stated as an if-and-only-if; on success the destination and error paths end in `\` and exist |
| Mover.DirectoryExists | XmlTimeUniqueifier/Processing/FileMover.cs:57-58 | `DirectoryInfo(p).Exists` over the set of existing directories, each written with a trailing `\` |
| Mover.FirstWithTag | XmlTimeUniqueifier/Processing/FileMover.cs:262-268 | `Item(0)` of `GetElementsByTagName` is the first element with the tag, and none is found exactly when no element has it |
| Mover.TryGetAttributeFinds | XmlTimeUniqueifier/Processing/FileMover.cs:258-282 | a value is found only on the first element with the tag, and there exactly when that element has the attribute with a non-empty value |
| Mover.TryGetAttribute | XmlTimeUniqueifier/Processing/FileMover.cs:258-282 | the attribute of the first element with the tag, when present and non-empty; `TryGetAttributeFinds` states this |
| Mover.SetAttributeReadBack | XmlTimeUniqueifier/Processing/FileMover.cs:209 | the written event date reads back, and every other (tag, attribute) lookup is unchanged |
| Mover.SetAttribute | XmlTimeUniqueifier/Processing/FileMover.cs:209 | `eventDate.Value = ...` on the node `TryGetAttribute` found; `SetAttributeReadBack` and `SetAttributeKeepsOthers` state what it changes |
| Mover.SetAttributeKeepsOthers | XmlTimeUniqueifier/Processing/FileMover.cs:209 | writing one attribute leaves every other (tag, attribute) lookup unchanged, whatever the value |
| Mover.AskGivesCandidate | XmlTimeUniqueifier/Processing/FileMover.cs:245-248 | whichever engine is behind it, a successful `Uniquify` gives the event date with an offset below 60 |
| Mover.Load | XmlTimeUniqueifier/Processing/FileMover.cs:192-193 | `XmlDocument.Load`: the document a file holds, or none when it does not parse |
| Mover.Attribute | XmlTimeUniqueifier/Processing/FileMover.cs:192-197 | load the file, then `TryGetAttribute`; nothing when the file does not load |
| Mover.Ask | XmlTimeUniqueifier/Processing/FileMover.cs:245-248 | `uniqueifier.Uniquify(eventDate, patientCode)` on whichever engine is held: the in-memory or the durable `Step`; `AskGivesCandidate` states what a success returns |
| Mover.ProcessFileSpec | XmlTimeUniqueifier/Processing/FileMover.cs:164-236 | when `ProcessFile` throws (refused open, name taken), the file exists and nothing has changed |
| Mover.MoveToDestination | XmlTimeUniqueifier/Processing/FileMover.cs:225 | `File.Move` into the destination under the file's name |
| Mover.ProcessXml | XmlTimeUniqueifier/Processing/FileMover.cs:189-227 | the XML branch: no document, a missing attribute, seconds already present or an exhausted engine move the file unmodified, otherwise the patched document is saved and the source deleted; `PatchedExactly`, `PatchedContent` and `XmlMovedUnchanged` state each outcome |
| Mover.FileStepIsOneMove | XmlTimeUniqueifier/Processing/FileMover.cs:124-150 | one iteration changes nothing, or moves the file out of the source to a fresh name in the destination, or moves it unchanged to a fresh name in the error directory |
| Mover.MoveToError | XmlTimeUniqueifier/Processing/FileMover.cs:136-147 | the `catch`: move to `<name>.<ticks>` in the error directory, or leave everything if that move fails; `TakenNameGoesToError` and `RefusedGoesToError` state it |
| Mover.FileStep | XmlTimeUniqueifier/Processing/FileMover.cs:127-149 | one iteration of the `foreach`: `ProcessFile`, and `MoveToError` when it throws; `FileStepIsOneMove`, `FileStepConserves` and `FileStepKeepsOthers` state what it keeps |
| Mover.Pass | XmlTimeUniqueifier/Processing/FileMover.cs:123-151 | the `foreach` over the listing, each path from the state the previous one left; `PassSnoc` and `PassKeepsFiles` state what a pass keeps |
| Mover.OneMoveConserves | XmlTimeUniqueifier/Processing/FileMover.cs:124-150 | each of those three leaves the number of files over the three directories unchanged |
| Mover.FileStepConserves | XmlTimeUniqueifier/Processing/FileMover.cs:124-150 | one iteration neither loses nor duplicates a file |
| Mover.FileStepKeepsOthers | XmlTimeUniqueifier/Processing/FileMover.cs:124-150 | one iteration never overwrites or removes a destination or error file, and touches no other source file |
| Mover.SkipsMissingOrLocked | XmlTimeUniqueifier/Processing/FileMover.cs:166-170 | a file is skipped exactly when it is missing or locked, and then nothing changes, the engine included |
| Mover.TakenNameGoesToError | XmlTimeUniqueifier/Processing/FileMover.cs:173-177 | a name already in the destination sends the file to the error directory under its tick suffix, or leaves everything as it was if that name is taken too |
| Mover.NonXmlMovedVerbatim | XmlTimeUniqueifier/Processing/FileMover.cs:230-235 | a non-XML file is moved byte for byte, and the engine is not asked |
| Mover.RefusedGoesToError | XmlTimeUniqueifier/Processing/FileMover.cs:289-301 | an exclusive open that fails with something other than an `IOException` escapes `ProcessFile`, and the file goes to the error directory under its tick suffix, or stays if that name is taken; destination and engine are untouched |
| Mover.PatchedExactly | XmlTimeUniqueifier/Processing/FileMover.cs:180-220 | a file is patched exactly when it is XML, both attributes are present and non-empty, its date has at most one `:`, and the engine finds an offset |
| Mover.PatchedContent | XmlTimeUniqueifier/Processing/FileMover.cs:206-215 | a patched file is saved as the loaded document with only `EventDate` set to the engine's answer: that value reads back and every other (tag, attribute) lookup equals the original's; the source is deleted, the engine has taken its step, and the error directory is untouched |
| Mover.PatchedAddsSeconds | XmlTimeUniqueifier/Processing/FileMover.cs:199-215 | with the real engines the saved date is the old one plus a two-digit offset, with one more `:` |
| Mover.XmlMovedUnchanged | XmlTimeUniqueifier/Processing/FileMover.cs:189-227 | an XML file that is not patched goes to the destination unmodified; the engine is untouched unless both attributes were there and the date had at most one `:` |
| Mover.PatchedOnce | XmlTimeUniqueifier/Processing/FileMover.cs:199-203 | a patched minute-precision file that comes round again is not patched a second time and does not reach the engine |
| Mover.PassAppend | XmlTimeUniqueifier/Processing/FileMover.cs:124-151 | a pass over two listings is the pass over the first, then the pass over the second from where it left off |
| Mover.PassSingle | XmlTimeUniqueifier/Processing/FileMover.cs:124-151 | a pass over one path is one iteration |
| Mover.PassSnoc | XmlTimeUniqueifier/Processing/FileMover.cs:124-151 | a failure does not stop the pass: each file is processed from the state the files before it left |
| Mover.PassKeepsFiles | XmlTimeUniqueifier/Processing/FileMover.cs:116-158 | a whole pass gives one result per listed path, loses no file, and never overwrites or removes a destination or error file |
| Mover.FileMover.constructor | XmlTimeUniqueifier/Processing/FileMover.cs:54-93 | once the checks pass, the normalised settings, the interval and the engine are stored |
| Mover.Open | XmlTimeUniqueifier/Processing/FileMover.cs:54-83 | a mover is built exactly when the checks pass, and otherwise the first failing check is reported |
| Mover.FileMover.GetEventDateValue | XmlTimeUniqueifier/Processing/FileMover.cs:245-248 | one `Uniquify` call on the engine the mover holds, with the event date and patient code in that order; the directories are untouched |
| Mover.FileMover.ProcessFile | XmlTimeUniqueifier/Processing/FileMover.cs:164-236 | result, directories and engine afterwards are those of `ProcessFileSpec` with the real engine |
| Mover.FileMover.ProcessXmlFile | XmlTimeUniqueifier/Processing/FileMover.cs:182-227 | the XML branch does what `ProcessXml` says: patch, save and delete, or move the file unmodified |
| Mover.FileMover.Quarantine | XmlTimeUniqueifier/Processing/FileMover.cs:132-149 | the `catch` moves the file to `<name>.<ticks>` in the error directory, or leaves everything if that move fails |
| Mover.FileMover.ProcessFiles | XmlTimeUniqueifier/Processing/FileMover.cs:116-158 | results, directories and engine afterwards are those of `Pass` over the listing with the real engine |

## Left out

- The timer, `Start`, `Stop` and `Monitor.TryEnter`: scheduling and mutual exclusion are not modelled. A pass is one call of `ProcessFiles`, and `updateInterval` is only stored.
- `lock (this)` in both engines: calls are modelled one at a time.
- Real file-system I/O: the directories are maps; `Directory.GetFiles` is the listing argument of `ProcessFiles`; the outcome of the exclusive open in `IsFileLocked` (free, locked, or refused for another reason) and the clocks (`DateTime.UtcNow` for `Created` and for the ticks) are inputs, one `Probe` per listed file.
- File names are compared as exact strings. Windows compares them case-insensitively, so a source `a.txt` next to a destination `A.TXT` throws at `FileMover.cs:174-176` and is quarantined, while the model moves it to a second, differently cased destination name.
- XML parsing and serialisation: a file's content carries what `XmlDocument.Load` would make of it, and a saved document loads back as itself. The `*` wildcard of `GetElementsByTagName`, namespaces and non-attribute nodes are not modelled.
- Failures of `File.Move`, `doc.Save` and `file.Delete` inside `ProcessFile` (files vanishing between steps, permissions): only the failures the code itself raises are modelled.
- log4net logging: it has no effect on the state.
- The floating-point product `history * 1.1` is replaced by the exact rational comparison; rounding at very large histories is not modelled.
- Entity Framework: the table is a sequence in store order. The database collation's case and whitespace rules for `StartsWith` and `==` are not modelled (ordinal comparison is), and neither are transactions and `SaveChanges` failures.
- `DbEngine.OldestIndex`: `OrderByDescending` runs as an SQL `ORDER BY`, which leaves rows with equal `Created` in no order; which of several equally old rows is dropped is the model's own choice. The facts `DbEngine.NewestKeepsLatest` proves (how many rows stay, none new, none kept older than one dropped) do not depend on that choice.
- `DbEngine.DbUniqueifier.Cleanup`: the model recounts after the removal as if it were committed. The source calls `RemoveRange` without `SaveChanges`, so `Events.Count()` still returns the count from before the removal until the next `SaveChanges`, and the real `eventCount` stays high until then.
- `Mover.IsXml`: `string.Compare(…, true)` is modelled with ASCII case folding, not culture-sensitive comparison.
- `DirectoryInfo.Exists`: a directory exists when its path, with a trailing `\` added, is in the set of existing directories; other path equivalences (`/`, `..`, case) are not modelled.
- `XmlTimeUniqueifier.cs` (service wiring and configuration reading) is not part of this model.
- `Mover.FileMover.constructor`: it requires the directory checks to pass; the throwing form is `Mover.Open`.
