# A verified model of the video-to-ASCII demo's sequential core

The application uploads a video, has an external script cut it into frames
and ASCII renderings, and plays the ASCII frames back from a backend table.
Three self-contained pieces of its logic are modelled here and proved:

- **Metadata parsers** (`src/utils/fileUtils.ts`). `parseVideoResolution`
  turns a `"WIDTHxHEIGHT"` string into a pair that is 0x0 whenever the
  string is malformed. `parseVideoFPS` takes the first run of digits, or 30
  when there is none. `calculateFrameNumber` is `floor(duration * fps)`.
  JavaScript's `parseInt(s, 10)`, `split` and the decimal text of a number
  are modelled as well (module `JsText` and the first part of `FileUtils`).
  So is the format the upload screen produces for the parsers
  (`${w}x${h}` and `${fps} fps`). The models are proved to read that format
  back.
- **Processing screen** (`src/components/ProcessingScreen.tsx`). The video
  basename is the last `/`-segment of the upload path with its final
  extension removed by `/\.[^/.]+$/`. The regular expression is modelled by
  its match semantics (leftmost match, anchored at the end). Each progress
  poll updates the screen: the progress shown, the step label, and whether
  the poll interval and the fallback timeout are still armed. This update is
  the pure function `PollProgress` over a `ScreenState` record.
- **Backend tables** (`convex/myFunctions.ts`). A `Database` class holds
  the `frames` and `video` tables as sequences of rows in insertion order.
  Every inserted document gets a fresh, increasing id. The methods
  `CreateEmptyFrameTable` (a delete loop, then an insert loop) and
  `SaveVideoMetadata` change the tables. `GetVideoFiles`, `GetAllFrames` and
  `GetVideoFileUrl` only read.

Modules: `Wrappers` (Option), `JsText`, `FileUtils`, `ProcessingScreen`,
`ConvexStore`, one file each.

Inputs the source obtains from the environment are parameters. These are the
poll's outcome (body, HTTP failure or thrown value) and the two `Date.now()`
readings of `saveVideoMetadata`, which are not assumed equal.

Where `convex/schema.ts` and `convex/myFunctions.ts` disagree, the model
follows `myFunctions.ts`:

- The frames table holds `frameNumber`/`lineNumber`/`lineContent`, where
  `schema.ts:31-34` declares `pixelNo`/`pixelData`.
- The video record gets no `duration`, which `schema.ts:26` requires.
- The video record gets a `frameNo`, which `schema.ts` does not declare.

## Model

| member | source | states |
|---|---|---|
| `JsText.NatToString` | src/components/UploadScreen.tsx:76 | The decimal text of a whole number is non-empty, all digits, has no leading zero, and is "0" exactly for 0 |
| `JsText.NatToStringValue` | src/components/UploadScreen.tsx:83 | Reading that decimal text back gives the number |
| `JsText.IntToString` | src/components/ProcessingScreen.tsx:77 | The text of an integer starts with `-` exactly when it is negative; otherwise it is all digits. `FileUtils.IntToStringRoundTrip` proves it denotes the integer |
| `JsText.IndexOf` | src/utils/fileUtils.ts:44 | The result is -1 or a position holding the character |
| `JsText.IndexOfIsFirst` | src/utils/fileUtils.ts:44 | No earlier position holds the character, and the result is -1 exactly when it does not occur |
| `JsText.Split` | src/utils/fileUtils.ts:44 | `split` always yields at least one piece |
| `JsText.SplitCount` | src/utils/fileUtils.ts:44-45 | There is one piece more than there are separators |
| `JsText.SplitOnce` | src/utils/fileUtils.ts:44-45 | A string with exactly one separator splits into the text before it and the text after it |
| `JsText.LastOfSplit` | src/components/ProcessingScreen.tsx:44 | The last piece of `split` is the text after the last separator |
| `JsText.AfterLastIsLast` | src/components/ProcessingScreen.tsx:44 | The text after the last separator has no separator, is a suffix of the string, and is preceded by the separator unless it is the whole string |
| `FileUtils.TrimStart` | src/utils/fileUtils.ts:53-54 | The result is no longer than the input and does not start with white space |
| `FileUtils.TrimStartSkipsWhiteSpace` | src/utils/fileUtils.ts:53-54 | What is skipped is all white space and the result is the rest of the string, so the longest white-space prefix is removed |
| `FileUtils.DigitPrefix` | src/utils/fileUtils.ts:53-54 | The result is all digits and is not followed by a digit |
| `FileUtils.DigitPrefixIsPrefix` | src/utils/fileUtils.ts:53-54 | The digit run is a prefix of the string, so it is the longest run of digits at the start |
| `FileUtils.TrimStartOf` | src/utils/fileUtils.ts:53-54 | White space followed by a non-space is trimmed to exactly the non-space part |
| `FileUtils.DigitPrefixOf` | src/utils/fileUtils.ts:53-54 | Digits followed by a non-digit yield exactly those digits |
| `FileUtils.ParseDigits` | src/utils/fileUtils.ts:53-54 | The digit step of `parseInt`: a number exactly when the text starts with a digit, and then never negative. `DigitPrefixOf` fixes which digits are read |
| `FileUtils.ParseSigned` | src/utils/fileUtils.ts:53-54 | The sign step of `parseInt`: only a leading `-` gives a negative value. `ParseSignedOfSign` and `ParseSignedNaN` give its value on every text without leading white space, the only texts `ParseInt` passes it |
| `FileUtils.ParseInt` | src/utils/fileUtils.ts:53-54 | `parseInt(s, 10)` is NaN on every string without a digit. `ParseIntDecomposed` and `ParseIntNaN` give its value on every input |
| `FileUtils.SignedWithoutDigits` | src/utils/fileUtils.ts:53-54 | After the white space of a digit-free string, the sign step reads NaN |
| `FileUtils.ParseSignedOfSign` | src/utils/fileUtils.ts:53-54 | After a sign, or none, that precedes a digit, the value is that of the digits, negated after `-` |
| `FileUtils.ParseSignedOf` | src/utils/fileUtils.ts:53-54 | An optional sign and then digits give the digits' value, negated after `-` |
| `FileUtils.ParseIntDecomposed` | src/utils/fileUtils.ts:53-54 | `parseInt` of white space, sign, digits, then anything not starting with a digit gives the signed value of the digits |
| `FileUtils.ParseIntNaN` | src/utils/fileUtils.ts:53-59 | `parseInt` gives NaN when no digit follows the white space and the optional sign |
| `FileUtils.ParseSignedNaN` | src/utils/fileUtils.ts:53-59 | A sign, or none, not followed by a digit reads as NaN |
| `FileUtils.ParseIntOfDigits` | src/utils/fileUtils.ts:69 | A bare run of digits parses to its value |
| `FileUtils.ParseIntOfNegative` | src/utils/fileUtils.ts:53 | `-` before digits parses to the negated value |
| `FileUtils.IntToStringRoundTrip` | src/components/ProcessingScreen.tsx:77 | `parseInt` of the decimal text of any integer, negative ones included, gives back the integer |
| `FileUtils.ParseVideoResolution` | src/utils/fileUtils.ts:33-65 | The result is 0x0 or has both sides strictly positive, never one zero side |
| `FileUtils.FormatResolution` | src/components/UploadScreen.tsx:76 | The upload screen's `${w}x${h}` has exactly one `x`. `ResolutionRoundTrip` proves the parser reads it back |
| `FileUtils.ResolutionNeedsOneX` | src/utils/fileUtils.ts:44-51 | A string without exactly one lower-case `x` gives 0x0 |
| `FileUtils.ResolutionOfSides` | src/utils/fileUtils.ts:53-64 | With one `x`, the result is non-zero exactly when both sides parse to positive numbers, and is then those two numbers |
| `FileUtils.ResolutionRoundTrip` | src/utils/fileUtils.ts:44-64 | Parsing the upload screen's `${w}x${h}` gives back (w, h) when both are positive, 0x0 otherwise |
| `FileUtils.ResolutionWithoutX` | src/utils/fileUtils.ts:44-51 | A string with no lower-case `x` gives 0x0 |
| `FileUtils.ResolutionRejectsTwoX` | src/utils/fileUtils.ts:44-51 | A string with two `x` separators, such as "1920x1080x1", gives 0x0 |
| `FileUtils.ResolutionRejectsShape` | src/utils/fileUtils.ts:39-51 | "", "Unknown", "1920" and "1920X1080" all give 0x0 |
| `FileUtils.ResolutionRejectsNegativeWidth` | src/utils/fileUtils.ts:59-62 | A negative width such as "-5x10" gives 0x0 |
| `FileUtils.ResolutionRejectsNonNumericWidth` | src/utils/fileUtils.ts:53-62 | A width with no digit, such as "abcx1080", "x1080" or "-x1080", gives 0x0 |
| `FileUtils.FirstDigitRun` | src/utils/fileUtils.ts:68 | `/(\d+)/` fails exactly on strings with no digit, and otherwise captures a non-empty run of digits |
| `FileUtils.ParseVideoFPS` | src/utils/fileUtils.ts:67-70 | The frame rate is never negative, and it is 30 when the string has no digit |
| `FileUtils.FormatFPS` | src/components/UploadScreen.tsx:83 | The upload screen's `${fps} fps` starts with a digit. `FpsRoundTrip` proves the parser reads it back |
| `FileUtils.FpsOfFirstRun` | src/utils/fileUtils.ts:68-69 | Text before the first digit is skipped; the value is that of the first maximal digit run, and whatever follows it is ignored |
| `FileUtils.FpsRoundTrip` | src/utils/fileUtils.ts:68-69 | Parsing the upload screen's `${fps} fps` gives back fps |
| `FileUtils.FpsUsesParseInt` | src/utils/fileUtils.ts:69 | The value is what `parseInt` makes of the captured run |
| `FileUtils.FpsDefault` | src/utils/fileUtils.ts:67-70 | "Unknown" gives the default 30 |
| `FileUtils.FpsExamples` | src/utils/fileUtils.ts:68-69 | "29.97 fps" gives 29 and "60 fps" gives 60 |
| `FileUtils.CalculateFrameNumber` | src/utils/fileUtils.ts:72-74 | The frame number r satisfies r <= duration * fps < r + 1 |
| `FileUtils.FrameNumberOfWholeNumbers` | src/utils/fileUtils.ts:72-74 | For whole-number duration and fps the frame number is exactly their product |
| `ProcessingScreen.FileName` | src/components/ProcessingScreen.tsx:44 | The file name is a suffix of the path with no `/`, preceded by `/` unless it is the whole path |
| `ProcessingScreen.FileNameAfterLastSlash` | src/components/ProcessingScreen.tsx:44 | The file name of dir + "/" + name, where name has no `/`, is name |
| `ProcessingScreen.FileNameWithoutSlash` | src/components/ProcessingScreen.tsx:44 | A path with no `/` is its own file name |
| `ProcessingScreen.FileNameOfDirectory` | src/components/ProcessingScreen.tsx:44 | A path ending in `/` gives "" |
| `ProcessingScreen.VideoBasename` | src/components/ProcessingScreen.tsx:43-45 | The basename has no `/` and is no longer than the path. `BasenameOf` gives its value on `dir/stem.ext` |
| `ProcessingScreen.ExtensionUnique` | src/components/ProcessingScreen.tsx:45 | `\.[^/.]+$` can match at one position at most |
| `ProcessingScreen.FirstMatchFrom` | src/components/ProcessingScreen.tsx:45 | The leftmost search returns a matching position, or -1 when no position from the start on matches |
| `ProcessingScreen.StripExtension` | src/components/ProcessingScreen.tsx:45 | When the pattern matches at i the result is the text before i; when it matches nowhere the name is unchanged |
| `ProcessingScreen.StripExtensionShape` | src/components/ProcessingScreen.tsx:45 | At most a dot and at least one character after it are removed; a name with no dot, or ending in a dot, is unchanged |
| `ProcessingScreen.StripExtensionExamples` | src/components/ProcessingScreen.tsx:45 | "a.b.mp4" gives "a.b"; "video." and "video" are unchanged |
| `ProcessingScreen.StripsExtension` | src/components/ProcessingScreen.tsx:45 | A stem followed by a dot and a non-empty extension without `.` or `/` gives back the stem |
| `ProcessingScreen.BasenameOf` | src/components/ProcessingScreen.tsx:43-45 | dir + "/" + stem + "." + ext, with no `/` in stem, has the basename stem |
| `ProcessingScreen.BasenameOfUploadPath` | src/components/ProcessingScreen.tsx:43-45 | "/uploads/1760789903437.mp4" gives the basename "1760789903437" |
| `ProcessingScreen.Classify` | src/components/ProcessingScreen.tsx:70-93 | Exactly one branch is taken: "extracting" iff originalCount is 0; otherwise "converting" iff progress < 100 and not complete, and "complete" iff complete or progress >= 100 |
| `ProcessingScreen.ConvertingLabel` | src/components/ProcessingScreen.tsx:77 | The converting label is neither "Complete!" nor "Extracting frames..." |
| `ProcessingScreen.FailureMessage` | src/components/ProcessingScreen.tsx:58-61 | The message of an HTTP failure or a thrown value; `FailureKeepsPolling` proves the label built from it is all a failed poll changes |
| `ProcessingScreen.ErrorLabel` | src/components/ProcessingScreen.tsx:94-98 | The error label is neither "Complete!" nor "Extracting frames..." |
| `ProcessingScreen.PollingStarted` | src/components/ProcessingScreen.tsx:115-119 | Starting to poll arms both timers and schedules no completion |
| `ProcessingScreen.PollProgress` | src/components/ProcessingScreen.tsx:49-99 | No poll re-arms a disarmed timer or withdraws a scheduled completion. `OnlyCompletionStopsPolling` gives each branch's effect |
| `ProcessingScreen.Run` | src/components/ProcessingScreen.tsx:116 | Repeated polls never withdraw a scheduled completion. `RunStaysStopped` and `RunKeepsStopped` state what a series of polls does to the timers |
| `ProcessingScreen.OnlyCompletionStopsPolling` | src/components/ProcessingScreen.tsx:80-98 | The step becomes "Complete!" exactly when the body reports completion. That branch disarms both timers and schedules one completion. Every other branch, errors included, leaves the timers and schedules nothing |
| `ProcessingScreen.ExtractingWhileNoFrames` | src/components/ProcessingScreen.tsx:68-72 | With originalCount 0 the step is "Extracting frames..." and the timers stay as they were, whatever progress and isComplete say |
| `ProcessingScreen.FailureKeepsPolling` | src/components/ProcessingScreen.tsx:94-98 | A failed poll sets an "Error: " label and changes nothing else |
| `ProcessingScreen.CompletionStopsTimers` | src/components/ProcessingScreen.tsx:80-93 | After any series of polls in which some body reports completion, the poll timer is off and a completion has been scheduled |
| `ProcessingScreen.RunStaysStopped` | src/components/ProcessingScreen.tsx:80-93 | A completion anywhere in a series of polls leaves both timers off and schedules a completion |
| `ProcessingScreen.RunKeepsStopped` | src/components/ProcessingScreen.tsx:80-93 | Once both timers are off, no later poll re-arms them |
| `ConvexStore.Placeholders` | convex/myFunctions.ts:101-107 | The placeholder table has max(n, 0) rows |
| `ConvexStore.PlaceholderLineNumbers` | convex/myFunctions.ts:101-106 | The placeholder line numbers are pairwise distinct and are exactly 0 .. n-1 |
| `ConvexStore.RemoveFrame` | convex/myFunctions.ts:97 | A delete never grows the table and leaves no row with the deleted id |
| `ConvexStore.RemoveFrameContents` | convex/myFunctions.ts:97 | A row survives a delete exactly when it was in the table and has another id |
| `ConvexStore.RemoveAbsentFrame` | convex/myFunctions.ts:97 | Deleting an id that no row has changes nothing |
| `ConvexStore.RemoveFirstFrame` | convex/myFunctions.ts:96-98 | Deleting the first collected row of a table with increasing ids leaves the rest in order |
| `ConvexStore.RemoveKeepsIds` | convex/myFunctions.ts:97 | A delete keeps the ids increasing and below the next fresh id |
| `ConvexStore.InsertByUploadTime` | convex/myFunctions.ts:33-37 | Inserting into a newest-first list adds exactly that record and keeps the list newest first |
| `ConvexStore.SortByUploadTime` | convex/myFunctions.ts:33-37 | The result is a permutation of the table, in descending `by_upload_time` order |
| `ConvexStore.NewestFirstSameHead` | convex/myFunctions.ts:33-37 | Two newest-first arrangements of the same records with distinct ids start with the same record |
| `ConvexStore.NewestFirstUnique` | convex/myFunctions.ts:33-37 | With distinct document ids that order is unique: two newest-first permutations of the same records are equal |
| `ConvexStore.Database.Valid` | convex/myFunctions.ts:65-107 | Every frame and video id is below the id the next insert receives; every method keeps this |
| `ConvexStore.Database.constructor` | convex/schema.ts:13-34 | A new database has empty `video` and `frames` tables and hands out ids from 0 |
| `ConvexStore.Database.DeleteFrame` | convex/myFunctions.ts:97 | One delete removes the row with that id and touches nothing else |
| `ConvexStore.Database.InsertFrame` | convex/myFunctions.ts:102-106 | One insert appends the row under a fresh id |
| `ConvexStore.Database.CreateEmptyFrameTable` | convex/myFunctions.ts:85-109 | The frames table becomes exactly the placeholders: row i has line i, frame -1 and content " ", and n <= 0 leaves it empty. No earlier row survives, the video table is unchanged, and one fresh id is used per inserted row |
| `ConvexStore.Database.SaveVideoMetadata` | convex/myFunctions.ts:51-83 | Exactly one record is appended under a fresh id and earlier rows are unchanged. The output resolution and fps mirror the source values, the other arguments are copied verbatim, and the record is then listed by getVideoFiles. One fresh id is used |
| `ConvexStore.Database.GetVideoFiles` | convex/myFunctions.ts:9-40 | The listing is a permutation of the video table, with upload times non-increasing |
| `ConvexStore.Database.GetAllFrames` | convex/myFunctions.ts:111-122 | The listing holds exactly the rows of the frames table |
| `ConvexStore.GetVideoFileUrl` | convex/myFunctions.ts:42-48 | The file id is returned unchanged |

## Left out

- JavaScript numbers are IEEE doubles, while the model uses unbounded
  integers (and reals for `calculateFrameNumber`). It does not model
  precision loss, `Infinity` from a very long digit run, `-0`, NaN inputs,
  or the rounding of `duration * fps`.
- JavaScript strings are UTF-16 code units, while the model uses Unicode
  scalar values. Surrogate pairs are not modelled.
- `ProcessingScreen.Classify`: only the if/else-if chain is modelled. With
  whole-number progress it always takes a branch. A non-numeric `progress`,
  which could take none, is not modelled.
- `ConvexStore.Database.CreateEmptyFrameTable`: `noOfFrames` is a whole
  number in the model. With a fractional count the source's loop inserts
  max(ceil(n), 0) rows, which the model does not cover.
- `ConvexStore.Database.CreateEmptyFrameTable`: the deletes are
  fire-and-forget (`void ctx.db.delete`). The model assumes they finish
  before the first insert, which the source does not guarantee.
- `ConvexStore.Database.GetVideoFiles`: equal upload times are ordered by
  creation, later first. The model uses the document id as the creation
  order. The backend's real tie-break is not visible in the source.
- `ConvexStore.Database.GetAllFrames`: the order is left open. The index
  `by_frame_number` it reads is not declared in `convex/schema.ts`.
- Document ids are modelled as increasing natural numbers, not the
  backend's opaque id strings.
- In the processing screen, `fetch`, `setInterval`/`setTimeout`, the
  five-minute fallback, the one-second delay before the completion callback
  and effect cleanup are timers and I/O. The model keeps only whether each
  timer is armed and how many completion callbacks have been scheduled.
  Overlapping, in-flight polls are not modelled.
- `formatFileSize`, `getFileFromUploads` (reads localStorage) and
  `saveFileToUploads` (a stub that returns empty strings) are not modelled.
  Neither are the mm:ss formatting and the playback screen: they are
  floating-point formatting, browser storage or UI.
- The Express relay (`server/index.ts`) is network I/O and is not part of
  this model. It calls backend functions that `convex/myFunctions.ts` does
  not define. It also passes `duration` and omits `frameNo` when calling
  `saveVideoMetadata`.
- The batched line-update mutation and the single-frame query are not part
  of this model. They are not defined in `convex/myFunctions.ts`.
- Console logging is omitted.
