# ForgeOps Go client: a verified model

The ForgeOps client reports errors, traces, metrics and request timings from a Go program. Before
anything leaves the process, hand-written scanners take personal data out of it, standing in for
regular expressions with look-around that Go's RE2 lacks; and everything waits in buffers and queues
whose lock is released while a delivery is under way. This project models those two families and
proves what they are for.

**Scanners.** Each index loop is a method with the source's loop, proved against a specification
function on two things: the byte before and the text from there on. That makes locality part of the
form, and what the scanner promises is proved about the function.

| module | what it is about |
|---|---|
| `Ascii` | byte classes, spans |
| `SqlNumbers`, `SqlNumberGrammar` | the number scanner, and the number grammar it searches without backtracking |
| `SqlMask`, `SqlMaskPrivacy`, `SqlMaskWhole`, `SqlMaskStability`, `SqlMaskCut` | masking a statement; what it hides; its edges; when masking twice changes nothing, also after the cut to 4000 characters |
| `SqlTokens`, `SqlNameGrammar` | the tokenizer, and the grammar of names it reads |
| `SqlObjects`, `SqlReading`, `SqlReportOrder` | what is read off a masked statement; said of its words in any case; in which order |
| `Luhn`, `Iban` | the two checksums and the mistakes they catch |
| `CardRuns`, `CardScrubber`, `CardText`, `CardStability` | digit runs against the pattern they replace; card numbers in them; what becomes of a card in text; nothing left for a second pass |
| `Normalize`, `NormalText`, `NormalForm`, `NormalQuotes` | the passes over a message; what each finds and writes; what they leave; when they are a fixed point |
| `StrictPath` | request paths under strict privacy |

**Buffers and queues.** Each one is a class with the source's fields, a flush being the two methods
on either side of the unlocked delivery; a delivery is an outcome the environment chooses. Beside it
stands a transition system over the same steps in every interleaving, with the history the program
does not keep.

| module | what it is about |
|---|---|
| `Delivery` | outcomes, and when a batch is let go of |
| `MetricBuffer`, `MetricHistory` | metric entries, with any number of flushes at once and with one |
| `PerformanceFlusher`, `PerformanceTally`, `PerformanceHistory` | request timings added up in buckets, sent and subtracted; what a tally is; with any number of flushes at once and with one |
| `BoundedQueue` | the channel with one worker that the error and the span queue share |
| `Drain`, `DrainProgress` | the package-level `Flush` over all of them; that it comes to an end |
| `SpanBuffer`, `SpanParents`, `SpanTree` | spans and their contexts; which parent a span gets; the trees they form |

## What does not hold

Where a promise fails, the code is kept as it is, an input shows the failure, and the exact condition
is proved where the promise has one.

- Masking twice is not always masking once: `1.5.6` becomes `?.6` and then `??`
  (`MaskingTwiceCanDiffer`). It is exactly when no masked number or dollar-quoted body is directly
  followed by text that is a number of its own (`MaskedTwiceIff`); for what maskSQL returns, cut or not,
  exactly when it holds no standalone number outside a word (`MaskSQLTwiceIff`).
- Normalising twice is not always normalising once: `' 'b' x'` becomes `' <str> x'` and then `<str>`
  (`NormalizingTwiceCanDiffer`). A result stays exactly when it holds no closed single-quoted run
  (`NormalizedTwiceIff`), any text exactly when no pass finds anything in it (`NormalizedFixedIff`);
  the passes after the quotes always are a fixed point (`WithoutIdsTwice`).
- Flushes of one buffer can overlap: the ticker's with `Flush`'s, or with one `FlushMetrics` makes. A
  metric flush then still removes exactly the entries it sent if and only if no other flush removed any
  since it took them (`RemovesWhatItSentIff`), and it panics if and only if more were removed since than
  were accepted (`PanicsIff`). A performance bucket stays right, through a whole run, if and only if no
  batch let go of held requests of its transaction that another flush had let go of since the snapshot
  while others of it were recorded (`BucketIsRightIff`). Every entry that has left the buffer was sent if
  and only if no flush ended with the last entry it removes unsent (`NothingIsLostIff`). Two runs lose an
  entry and a request that nobody ever sent (`OverlappingFlushesLoseAnEntry`,
  `OverlappingFlushesLoseARequest`).
- `Flush` can return true and have left infrastructure readings behind (`forgeops.go:164-172`): when a
  ticker's flush of the metrics ends while `Flush`'s own is under way, the own one can panic; the panic
  is recovered from and counts as done, and the own flush of the readings is never reached
  (`FlushCanSkipReadings`). `Flush` is cut short like that exactly when more entries left the metric
  buffer in between than were accepted (`FlushIsCutShortIff`); readings are then left behind unless a
  ticker has sent them.
- The comment at `performance_flusher.go:155-159` says that the maximum left on a bucket never
  overstates the next period's. It does, exactly when something longer than everything pending was let
  go of while the bucket was there, however many flushes ago (`MaximumOverstatesIff`,
  `MaximumCanOverstate`).
- Luhn's check does not see every swap of neighbours: not that of equal digits, and not that of 0 and
  9, and it sees all others (`LuhnMissesSwapIff`).
- The IBAN check sees every swap of two different neighbouring digits, or letters
  (`IbanDetectsSwap`), but of a letter with a digit not that of B and 1, M and 2 or X and 3; and between
  the fourth and the fifth character, which are last and first in the number checked, it misses others:
  `GB03D0000000021` and `GB0D30000000021` are both valid (`FourthAndFifthCanSwap`). The exact condition
  for every position is `IbanMissesSwapIff`.

## Model

| member | source | states |
|---|---|---|
| Ascii.ClassesInAscii | sql_statement.go:97-105 | the byte classes by their codes |
| SqlNumbers.RadixNumberEnd | sql_statement.go:248-257 | finds the end of a hex or binary number: a zero, the marker in either case, and all the digits of the radix after it, at least one |
| SqlNumbers.ExponentEnd | sql_statement.go:260-272 | finds the end of an exponent, with or without a sign, or that there is none |
| SqlNumbers.BasesAt | sql_statement.go:225-234 | the candidate mantissas, the one with a fraction before the one without |
| SqlNumbers.FirstEnd | sql_statement.go:235-243 | the first candidate that stands alone, each tried with its exponent and then without |
| SqlNumbers.NumberEnd | sql_statement.go:215-244 | the loop computes the fallback order hex, binary, then mantissas |
| SqlNumberGrammar.NumberLenIsLongest | sql_statement.go:210-244 | that fixed order loses nothing against full backtracking: what is found is the longest standalone number of the hex, binary, decimal and exponent grammar starting there, and nothing is found exactly when there is none |
| SqlMask.QuotedEnd | sql_statement.go:187-208 | the scan for a string's end agrees with its meaning: doubled quotes and backslashed bytes do not close it, and an unclosed one takes the rest |
| SqlMaskPrivacy.ClosedBodyIff | sql_statement.go:187-208 | a string ends exactly at a quote that has a well-formed body (by grammar) before it and is not doubled |
| SqlMaskPrivacy.ClosedDollarIff | sql_statement.go:148-160 | a dollar-quoted body ends where its tag first returns, and nowhere else |
| SqlMask.IndexOfIsFirst | sql_statement.go:156-158 | a dollar-quoted body ends at the first return of its tag |
| SqlMask.DollarEnd | sql_statement.go:148-160 | finds the end of a dollar-quoted body, the end of the statement when its tag does not return, and nothing when no tag opens one |
| SqlMask.LiteralEnd | sql_statement.go:138-185 | the extent of a literal is a function of the byte before it and the text from it on |
| SqlMask.MaskAll | sql_statement.go:116-128 | the loop computes that masking, literal by literal, each a question mark |
| SqlMask.MaskSQL | sql_statement.go:110-133 | blank statements give nothing; double quotes count for mysql and mariadb in any case; the result is cut after 4000 characters and marked as cut |
| SqlMaskPrivacy.NoQuoteSurvives | sql_statement.go:107-127 | no single quote is left in any masked statement, and no double quote where those are strings |
| SqlMaskPrivacy.DigitIsCopiedIff | sql_statement.go:162-168 | a digit the scan comes to survives exactly when it follows a word byte, a dollar or a dot, or when no standalone number starts with it |
| SqlMaskPrivacy.GluedDigits | sql_statement.go:210-244 | and in the last case its digits run into a word byte |
| SqlMaskPrivacy.OriginShows | sql_statement.go:116-127 | each byte of the masked text is a question mark for a literal at its origin or the copied byte there |
| SqlMaskPrivacy.EveryDigitWasGlued | sql_statement.go:116-168 | every digit of any masked text is a copied one that followed a word byte, a dollar or a dot, or whose digits ran into a word byte |
| SqlMaskPrivacy.LiteralIsLocal | sql_statement.go:138-185 | a literal that ends before a quote or a dollar ends there whatever comes after that byte |
| SqlMaskPrivacy.PrefixIsLocal | sql_statement.go:116-127 | text before a point the scan rests on is masked without regard to what a literal opened at that point holds |
| SqlMaskPrivacy.ContentIsHidden | sql_statement.go:110-208 | two statements that differ only inside one closed literal that the scan reaches are masked to the same text: a string of any type prefix, a double-quoted one where these are strings, or a dollar-quoted body |
| SqlMaskWhole.TypePrefixes | sql_statement.go:171-183 | the type prefixes of a string are E, X, N, B and U& in either case, and no others |
| SqlMaskWhole.EndOfWordIsCopied | sql_statement.go:171-183 | a letter that ends a word is no prefix: it is copied |
| SqlMaskWhole.DollarOpensIff | sql_statement.go:148-161 | a dollar opens a body exactly when a second one follows it with only letters and underscores between |
| SqlMaskWhole.UnclosedIsMasked | sql_statement.go:138-208 | a literal of any kind that never ends is masked to the end of the statement, a backslash at the very end included |
| SqlMaskWhole.DoubleQuotesIff | sql_statement.go:114-114 | double quotes hold strings for MySQL and MariaDB, in any mix of cases, and for no other system |
| SqlMaskWhole.NoDoubleQuoteForMySql | sql_statement.go:110-133 | no double quote is left in what is sent for these |
| SqlMaskWhole.DoubleQuoteIsCopied | sql_statement.go:114-127 | and for any other the one the scan comes to is copied |
| SqlMaskWhole.BlankIff | sql_statement.go:110-113 | nothing is sent exactly when the statement is all white space |
| SqlMaskWhole.CutAt4000 | sql_statement.go:128-133 | what is sent is the masked statement, or its first 4000 characters and three dots when it is longer |
| SqlMaskStability.WordRunIsCopied | sql_statement.go:116-127 | a run of word bytes after a word byte comes through whole, and still ends where it did |
| SqlMaskStability.CopiedAgainUnless | sql_statement.go:135-185 | what one pass copied a second copies too, unless a literal before it became a question mark and it is itself a number |
| SqlMaskStability.MaskedTwiceIff | sql_statement.go:110-127 | masking a masked text changes nothing if and only if no masked number or dollar-quoted body is directly followed by a number |
| SqlMaskCut.MaskSQLTwiceIff | sql_statement.go:110-133 | for maskSQL itself, on every statement: masking its result changes nothing if and only if that holds no standalone number outside a word; and when the cut leaves the statement whole, if and only if no number was glued to a number or dollar-quoted body it masked |
| SqlMaskStability.MaskingTwiceCanDiffer | sql_statement.go:110-127 | a statement that masking twice changes |
| SqlTokens.NamePartEnd | sql_statement.go:292-320 | finds the end of one part of a name, bare or quoted in three ways, an empty or unclosed quoted part being none |
| SqlTokens.NameEnd | sql_statement.go:323-336 | finds the end of a qualified name, a dot with no part after it not being taken |
| SqlTokens.TokenizeSql | sql_statement.go:338-354 | the loop computes the token list the lemmas below speak of |
| SqlTokens.TokensSpell | sql_statement.go:338-354 | the tokens in order spell the statement with nothing but whitespace left out |
| SqlTokens.NameOfPrefix | sql_statement.go:322-336 | a name cut out of a statement parses to itself |
| SqlTokens.NameTokensAreFullNames | sql_statement.go:338-358 | so every name token is a full name |
| SqlTokens.NameIsOnlyCut | sql_statement.go:483-486 | trimming never changes a name token; only the cut to 200 characters can |
| SqlNameGrammar.NameIsQualified | sql_statement.go:292-336 | a name that is read is one of the grammar: parts, bare or quoted in three ways, joined by dots |
| SqlNameGrammar.NoLongerName | sql_statement.go:292-336 | and no longer name of the grammar starts there |
| SqlNameGrammar.FullNameIff | sql_statement.go:356-358 | a text is a full name exactly when the grammar makes it one |
| SqlNameGrammar.TokensRead | sql_statement.go:338-354 | between white space each token is the longest name that starts there, or one byte where none does |
| SqlNameGrammar.CleanedAlike | sql_statement.go:483-486 | white space around a name makes no difference, and 200 characters of it are kept |
| SqlTokens.CleanSqlNames | sql_statement.go:480-505 | computes the cleaned list |
| SqlTokens.AllCleanedHas | sql_statement.go:482-500 | before the cut to ten, the list holds each full name among the trimmed and cut ones, once, and nothing else |
| SqlTokens.CleanedMeans | sql_statement.go:480-505 | at most ten names, no two the same, each a full name that was given; and none is left out while there is room |
| SqlNameGrammar.ReportedInOrder | sql_statement.go:480-505 | names stay in the order they are first given in, and the cut to ten takes off the last |
| SqlObjects.KeepTokens | sql_statement.go:389-411 | the loop takes out the calls of EXTRACT, SUBSTRING, TRIM and OVERLAY that SkipAt finds, and nothing else |
| SqlObjects.CloseFromIff | sql_statement.go:395-404 | such a call ends at the first parenthesis inside it, if that closes; otherwise it is none |
| SqlObjects.KeptExactly | sql_statement.go:389-411 | without the scan: a token is left out if and only if it lies in a call that starts inside no other call left out; the rest stay in order |
| SqlObjects.FindCalled | sql_statement.go:415-425 | the names called after CALL, EXEC, EXECUTE and PERFORM |
| SqlObjects.FindNamed | sql_statement.go:427-445 | the names after FROM, JOIN, INTO, UPDATE and TABLE, told apart into tables and set-returning functions |
| SqlObjects.ExtractSqlObjects | sql_statement.go:384-478 | computes operation, procedures and relations, and nothing at all when there are none |
| SqlObjects.CalledExactly | sql_statement.go:415-425 | without the scan: called are exactly the names that stand after a procedure keyword which is not itself such a name |
| SqlObjects.NamedExactly | sql_statement.go:427-445 | the same for relation keywords, tables and set-returning functions apart |
| SqlObjects.ReportedExactly | sql_statement.go:384-478 | with fewer than ten reported, a full name is reported exactly when, trimmed and cut, it stands where a table or a procedure is named; with ten, only if it does |
| SqlObjects.ReportedNamesAreReal | sql_statement.go:381-505 | every reported name is a name token of the masked statement or its first 200 characters, a full name, listed once, at most ten to a list |
| SqlReading.RelationWords | sql_statement.go:377-430 | a relation is named after FROM, JOIN, INTO, UPDATE or TABLE, in any case, and after no other word |
| SqlReading.CallWords | sql_statement.go:375-416 | a procedure after CALL, EXEC, EXECUTE or PERFORM |
| SqlReading.WordsThatAreNoNames | sql_statement.go:371-437 | the eight words that may follow without naming a relation |
| SqlReading.FunctionsInFrom | sql_statement.go:431-444 | after FROM or JOIN, and there only, a name with a parenthesis after it is a function's |
| SqlReading.NotProcedures | sql_statement.go:376-421 | IMMEDIATE, FUNCTION and PROCEDURE, alone or before a dot, are called by no keyword |
| SqlReading.LeftOutCalls | sql_statement.go:378-411 | the calls left out are those of EXTRACT, SUBSTRING, TRIM and OVERLAY whose first parenthesis inside closes them |
| SqlReading.SelectedIff | sql_statement.go:447-459 | SELECT f(...) reports f exactly when no FROM stands anywhere and f is none of 21 built-in functions |
| SqlReading.OperationsAre | sql_statement.go:361-364 | the thirteen operations, in any case |
| SqlReading.OperationIsRead | sql_statement.go:461-472 | a statement whose first word is one of them is reported with it, in capitals |
| SqlReading.OtherWordsAreNoOperation | sql_statement.go:461-472 | and with any other first word there is no operation |
| SqlReading.FoundIsSomething | sql_statement.go:461-477 | what is returned names one of these operations or none, and never is empty |
| SqlReading.NothingFoundMeans | sql_statement.go:473-477 | nothing is returned only when there is no operation and nothing named |
| SqlReportOrder.TablesInOrder | sql_statement.go:427-478 | tables are reported in the order they are first named in, whether or not there are more than ten |
| SqlReportOrder.CallsInOrder | sql_statement.go:415-478 | procedures called by a keyword in theirs, before all others |
| SqlReportOrder.FunctionsInOrder | sql_statement.go:427-478 | then functions in FROM and JOIN, and a selected function last |
| SqlObjects.StringsNameNothing | sql_statement.go:381-383 | two statements that differ only inside one such literal report the same names |
| Luhn.IsCardNumber | pii_scrubber.go:161-177 | 13 to 19 digits with a network's prefix whose weighted sum, by position from the right, is a multiple of ten |
| Luhn.LuhnFromTheRight | pii_scrubber.go:165-176 | from the right end and without positions: of the last two digits the first counts double, the digits of its double added up |
| Luhn.LuhnOfOne | pii_scrubber.go:165-176 | and a single digit counts as it is |
| Luhn.PrefixIsNetworks | pii_scrubber.go:178-196 | the blocks that count are Visa's, Mastercard's, American Express's, Discover's, JCB's, Diners Club's and UnionPay's, and no others |
| Luhn.CardNumberIff | pii_scrubber.go:161-196 | a card number has 13 to 19 digits, starts with such a block, and its sum leaves 0 by 10 |
| Luhn.CheckDigit | pii_scrubber.go:161-177 | 12 to 18 digits that start with a block become a card number by exactly one more digit |
| Luhn.LuhnDetectsOneDigit | pii_scrubber.go:165-176 | changing one digit anywhere, in a string of any length, always changes the sum by ten's remainder |
| Luhn.NoTwoCardsDifferInOneDigit | pii_scrubber.go:161-177 | no two accepted numbers differ in exactly one digit |
| Luhn.LuhnMissesSwapIff | pii_scrubber.go:165-176 | swapping two neighbours goes unnoticed exactly when they are equal or are 0 and 9 |
| Iban.IsIban | pii_scrubber.go:201-219 | the digit-at-a-time loop is the remainder by 97 of the whole expanded number, on 15 to 34 characters without spaces |
| Iban.ExpandedIsWrittenOut | pii_scrubber.go:206-217 | what is built up digit by digit is the number read off the text with A to Z written out as 10 to 35 |
| Iban.ValidIbanIff | pii_scrubber.go:198-219 | valid is what, spaces out, has 15 to 34 characters and, its first four moved to the end and written out, leaves 1 by 97 |
| Iban.IbanDetectsOneCharacter | pii_scrubber.go:201-219 | replacing one digit by another or one letter by another in a valid IBAN always makes it invalid |
| Iban.IbanDetectsSwap | pii_scrubber.go:201-219 | so does swapping two different neighbouring digits, or letters, wherever they stand, those the rearrangement parts included |
| Iban.IbanMissesSwapIff | pii_scrubber.go:201-219 | for every position: swapping two neighbouring characters goes unnoticed exactly when they are equal or are B and 1, M and 2 or X and 3; but the fourth and the fifth, when one is a letter and one a digit, exactly when 97 divides a number made of both and of how many digits stand between them once rearranged |
| Iban.FourthAndFifthCanSwap | pii_scrubber.go:201-219 | two valid IBANs that differ by such a swap of the fourth and the fifth character |
| CardRuns.MatchLenIsLongest | pii_scrubber.go:76-107 | the manual back-off takes the longest match of the pattern it replaces, and none exactly when there is none |
| CardScrubber.SplitRun | pii_scrubber.go:124-134 | the loop splits a run into its groups and their separators |
| CardScrubber.SplitOfRun | pii_scrubber.go:119-134 | splitting loses nothing: the groups and separators join to the run |
| CardScrubber.FindCard | pii_scrubber.go:138-146 | stopping at 19 digits loses nothing: the longest stretch of whole groups that is a card number is found |
| CardScrubber.ScrubCardNumbersIn | pii_scrubber.go:123-158 | computes the run with those stretches replaced, the separator after one kept |
| CardScrubber.RunEnd | pii_scrubber.go:90-100 | the greedy loop and the last separator it remembers |
| CardScrubber.ScrubCardNumbers | pii_scrubber.go:81-117 | the scan that skips whole runs computes the leftmost longest replacement of the pattern byte by byte, so no match is jumped over |
| CardText.CardIsReplaced | pii_scrubber.go:76-158 | a card number standing alone in text, in one piece or in groups, becomes the marker; what follows is scrubbed as on its own |
| CardText.PlainCardIsReplaced | pii_scrubber.go:76-158 | in particular its digits alone |
| CardText.OtherRunsStay | pii_scrubber.go:119-158 | a run none of whose stretches of groups is a card number stays |
| CardText.TextWithoutDigitsStays | pii_scrubber.go:81-88 | and so does text without digits |
| CardStability.RunIsAccountedFor | pii_scrubber.go:119-158 | every group is kept or part of a replaced stretch, in order, and only card numbers are replaced |
| CardStability.NoCardSurvives | pii_scrubber.go:119-158 | no stretch of neighbouring groups that were kept is a card number |
| CardStability.ScrubTwice | pii_scrubber.go:81-158 | a second pass over any scrubbed text changes nothing |
| Normalize.ReplaceQuoted | strict_privacy.go:89-107 | the loop is one pass of leftmost replacement of quoted runs within a line |
| Normalize.ReplaceHexObjectIds | strict_privacy.go:109-127 | the same for 0x and at least four hex digits |
| Normalize.UuidAt | strict_privacy.go:129-148 | recognises 8-4-4-4-12 hex digits |
| Normalize.ReplaceUuids | strict_privacy.go:150-163 | the same pass for UUIDs no word byte touches |
| Normalize.ReplaceNumbers | strict_privacy.go:165-183 | the same pass for digit runs no word byte touches |
| Normalize.NormalizeMessage | strict_privacy.go:60-64 | the passes in their order, after any e-mail step whatever |
| NormalText.QuotedIff | strict_privacy.go:85-107 | a quoted run is found exactly where one starts, within a line, a single quote opening none after a word byte and closing none before one |
| NormalText.HexIdIff | strict_privacy.go:109-127 | an object id is 0x and all the hex digits after it, at least four |
| NormalText.UuidIff | strict_privacy.go:129-163 | a UUID is 36 characters, no word byte around |
| NormalText.NumberIff | strict_privacy.go:165-183 | a number is all the digits that start there, no word byte around |
| NormalText.FoundIsReplaced | strict_privacy.go:52-64 | what is found becomes its mark, and the text after it is rewritten on its own |
| NormalText.ApostrophesStay | strict_privacy.go:85-107 | text whose single quotes all follow word bytes is left alone by their pass |
| NormalText.DoubleQuotesGoFirst | strict_privacy.go:60-64 | a double-quoted run at the start goes first, whatever it holds, and the rest is normalised as on its own |
| NormalText.QuotesGoBeforeNumbers | strict_privacy.go:60-64 | a digit after a quote still keeps it from closing a run |
| NormalText.UuidBecomes | strict_privacy.go:52-64 | a UUID becomes one mark even if it is all digits and dashes |
| NormalText.DigitsBecome | strict_privacy.go:52-64 | and so does a message of digits |
| NormalText.SingleQuotedBecomes | strict_privacy.go:52-64 | and a single-quoted one, ids and digits in it included |
| NormalText.ObjectIdBecomes | strict_privacy.go:52-64 | an object id keeps nothing but its 0x |
| NormalForm.FreeMeansNowhere | strict_privacy.go:85-183 | free of a rule means that it finds nothing at any position |
| NormalForm.UuidWasThere | strict_privacy.go:150-183 | a UUID in the output of the UUID or number pass was one in its input: replacements make none |
| NormalForm.IdsStayAway | strict_privacy.go:150-183 | the later passes make no hex object id |
| NormalForm.NoIdsAreLeft | strict_privacy.go:60-64 | whatever the text, no object id, UUID or standalone number is left after the last three passes |
| NormalForm.WithoutIdsTwice | strict_privacy.go:63-63 | running these passes again changes nothing |
| NormalQuotes.OneQuoteMeans | strict_privacy.go:52-56 | between two double quotes there is a line break |
| NormalQuotes.OneQuoteIsKept | strict_privacy.go:85-183 | no pass brings two double quotes onto one line |
| NormalQuotes.NormalizedIsNormal | strict_privacy.go:52-64 | for any message and any e-mail step the result has no object id, UUID or standalone number, and no two double quotes on a line |
| NormalQuotes.SingleQuotesDwindle | strict_privacy.go:85-183 | no pass adds a single quote, and a single-quote pass that finds a run takes some away |
| NormalQuotes.NormalizedTwiceIff | strict_privacy.go:60-64 | normalising a normalised text changes nothing if and only if it holds no closed single-quoted run |
| NormalQuotes.NormalizedFixedIff | strict_privacy.go:60-64 | normalising any text changes nothing if and only if none of the five passes finds anything in it |
| NormalQuotes.NormalizingTwiceCanDiffer | strict_privacy.go:60-64 | a message that normalising twice changes |
| StrictPath.IsRouteTemplate | strict_privacy.go:221-234 | a path is a template exactly when one of its segments is a parameter |
| StrictPath.IsParameterIff | strict_privacy.go:221-234 | the five ways to write a parameter, each with something inside but the star's |
| StrictPath.TemplateIsKept | strict_privacy.go:195-197 | a path with a parameter stays as it is, but for its query |
| StrictPath.StrictPath | strict_privacy.go:191-219 | computes the reduced path |
| StrictPath.RawPathBecomes | strict_privacy.go:198-218 | any other becomes one leading slash if it had any, its first segment, withheld when it holds a digit or is longer than 40, and whether there was more |
| StrictPath.RawResultIsShort | strict_privacy.go:207-218 | so the result holds no digit and at most 47 characters |
| StrictPath.HasMoreIff | strict_privacy.go:192-217 | there is more when anything but slashes follows the first segment before the query |
| StrictPath.NoSegmentsBecomeRoot | strict_privacy.go:198-206 | nothing but slashes is the root |
| StrictPath.StrictPathTwice | strict_privacy.go:185-219 | reducing a reduced path changes nothing, for every path, its own :id and :path included |
| StrictPath.QueryIsHidden | strict_privacy.go:192-194 | nothing after a query or fragment mark matters |
| StrictPath.RawPathShowsOnly | strict_privacy.go:187-219 | any two raw paths give the same result if and only if they agree on the leading slash, on what is kept of the first segment and on whether there is more |
| StrictPath.RestOfPathIsHidden | strict_privacy.go:187-219 | so nothing else shows: not how many slashes lead, not what follows the first segment, be it more segments, a closing slash or a query |
| MetricBuffer.MetricBuffer.constructor | metric_buffer.go:62-64 | an empty buffer with no failures |
| MetricBuffer.MetricBuffer.Record | metric_buffer.go:66-89 | refuses non-finite values and, at the cap, everything; otherwise the entry goes last, with its time |
| MetricBuffer.MetricBuffer.BeginFlush | metric_buffer.go:94-102 | a snapshot of all entries, none when there are none |
| MetricBuffer.MetricBuffer.EndFlush | metric_buffer.go:104-125 | counts or clears the failures and, when the batch is let go of, takes as many entries off the front as it held; panics, the entries untouched, when fewer are left |
| MetricBuffer.RecordMeans | metric_buffer.go:66-89 | an entry is taken exactly when its value is finite and fewer than 1000 are held |
| MetricBuffer.DeliveredOrRejectedGoes | metric_buffer.go:108-124 | a batch that was delivered or rejected goes at once, and the failures are forgotten |
| MetricBuffer.FailedStaysUntilFifth | metric_buffer.go:108-124 | one that failed stays and is counted, until the fifth failure in a row |
| MetricBuffer.NothingGoesInPanic | metric_buffer.go:122-124 | when fewer are left than were sent none goes, and exactly the batches that would go panic |
| MetricHistory.RunKeepsInv | metric_buffer.go:66-125 | in every interleaving, overlapping flushes included, the buffer is what was accepted less a prefix and within the cap |
| MetricHistory.RemovesWhatItSentIff | metric_buffer.go:122-124 | a flush removes exactly what it sent if and only if no other flush removed anything since it took its snapshot |
| MetricHistory.NothingIsLostIff | metric_buffer.go:66-125 | in every run, with any number of flushes at once, each entry that left the buffer was sent if and only if no flush ended with the last entry it removes unsent |
| MetricHistory.PanicsIff | metric_buffer.go:122-124 | a flush panics if and only if it lets its batch go and more entries were removed since its snapshot than accepted |
| MetricHistory.AloneNeverPanics | metric_buffer.go:122-124 | which never happens with one flush in flight |
| MetricHistory.OverlappingFlushesLoseAnEntry | metric_buffer.go:94-125 | a run of two flushes at once that loses an entry never sent |
| MetricHistory.HistoryIsExact | metric_buffer.go:66-125 | with one flush in flight: accepted is the batches let go of, in order, and then the buffer; the batch in flight is the buffer's front; the failure counter is the number of times the oldest entry was sent, less the send under way; nothing is sent more than five times, nothing let go of unsent |
| MetricHistory.SettlesItsOwnBatch | metric_buffer.go:122-124 | what a flush lets go of is its own batch, all of it |
| MetricHistory.SettledIsNotResent | metric_buffer.go:104-125 | an entry in a batch that was delivered or rejected is not sent again, whatever follows |
| PerformanceFlusher.BucketFor | histogram_bucketer.go:20-27 | the label of the smallest boundary the duration fits under |
| PerformanceTally.LabelIs | histogram_bucketer.go:15-27 | the nine labels and their boundaries, each boundary belonging to the label below it |
| PerformanceFlusher.PerformanceFlusher.constructor | performance_flusher.go:38-45 | no buckets, no failures, the period starting now |
| PerformanceFlusher.PerformanceFlusher.Record | performance_flusher.go:48-70 | adds the request to its bucket's count, sum, maximum and histogram |
| PerformanceFlusher.PerformanceFlusher.BeginFlush | performance_flusher.go:94-117 | a snapshot of every bucket, none when there are none |
| PerformanceFlusher.PerformanceFlusher.EndFlush | performance_flusher.go:119-163 | counts or clears the failures and, when the batch is let go of, subtracts the snapshot and starts the next period where it was taken |
| PerformanceFlusher.DeliveredOrRejectedGoes | performance_flusher.go:121-161 | a snapshot that was delivered or rejected is taken out at once, and the failures are forgotten |
| PerformanceFlusher.FailedStaysUntilFifth | performance_flusher.go:121-136 | one that failed stays and is counted, until the fifth failure in a row |
| PerformanceFlusher.LessBuckets | performance_flusher.go:138-154 | the loop over the snapshot's buckets, in any order, is the subtraction bucket by bucket |
| PerformanceFlusher.LessHistogram | performance_flusher.go:145-151 | the loop over one histogram's labels, in any order, is the subtraction label by label |
| PerformanceTally.RecordTallies | performance_flusher.go:48-70 | after a record the buckets tally the requests and this one: counts, sums and every histogram label |
| PerformanceTally.SubtractIsExactIff | performance_flusher.go:137-154 | of a snapshot of p and q, p having been taken out since and b recorded: subtracting it leaves the tally of b if and only if the transaction is not both in p and in b |
| PerformanceTally.SubtractIsExact | performance_flusher.go:76-154 | taking the tally of the first requests out of the tally of all leaves exactly the tally of the rest, with no zero label and no empty bucket |
| PerformanceTally.HistogramAddsUp | performance_flusher.go:48-70 | a bucket's nine labels add up to its count, and it has no others |
| PerformanceHistory.RunKeepsInv | performance_flusher.go:48-163 | in every interleaving, overlapping flushes included, every transaction not mixed up is tallied in its bucket and in each snapshot, and every maximum is that of the requests since its bucket has been there |
| PerformanceHistory.EndIsExactIff | performance_flusher.go:137-154 | a batch let go of leaves a transaction's bucket right if and only if it does not clash there: requests of it let go of by another flush since, and others recorded since |
| PerformanceHistory.BucketIsRightIff | performance_flusher.go:48-163 | in every run, with any number of flushes at once, a transaction's bucket is right in every state if and only if no batch ever clashes on it |
| PerformanceHistory.OverlappingFlushesLoseARequest | performance_flusher.go:94-163 | a run of two flushes at once, from a new flusher, that loses a request never sent |
| PerformanceHistory.MaximumOverstatesIff | performance_flusher.go:155-159 | in every reachable state a bucket's maximum overstates what is pending if and only if something longer was let go of while the bucket was there; it understates nothing that is not mixed up |
| PerformanceHistory.MaximumCanOverstate | performance_flusher.go:155-159 | a run in which it stays behind although the last flush sent nothing longer |
| PerformanceHistory.NothingIsLost | performance_flusher.go:72-163 | in every run, for each transaction no batch clashed on and each label: recorded is delivered and dropped and still in the bucket, in number and in time |
| PerformanceHistory.LetGoWasSent | performance_flusher.go:94-163 | and none of its requests was let go of without having been sent |
| PerformanceHistory.SingleRunKeepsInv | performance_flusher.go:48-163 | with one flush in flight at a time nothing is ever mixed up, and times and sends are in order |
| PerformanceHistory.EveryRun | performance_flusher.go:48-163 | in such a run a bucket exists exactly when requests are pending and its maximum bounds them; settled windows are contiguous and hold their own requests |
| PerformanceHistory.RetriesAreCounted | performance_flusher.go:119-136 | and the failure counter is the number of times the oldest pending request was sent, less the send under way; none is sent more than five times, none let go of unsent |
| PerformanceHistory.SettledIsNotResent | performance_flusher.go:119-163 | a request in a snapshot that was delivered or rejected is not sent again, in any run, overlapping flushes included |
| BoundedQueue.BoundedQueue.constructor | delivery_queue.go:36-46 | an empty channel with room for at least one item |
| BoundedQueue.BoundedQueue.Push | delivery_queue.go:59-69 | queues last, or drops and says so when full |
| BoundedQueue.BoundedQueue.SendMarker | delivery_queue.go:76-95 | a marker queues last when there is room |
| BoundedQueue.BoundedQueue.Take | delivery_queue.go:104-106 | the worker takes the first item |
| BoundedQueue.BoundedQueue.Done | delivery_queue.go:78-81 | the worker is done with it, which for a marker releases its Flush and no other |
| BoundedQueue.QueueIsFifo | delivery_queue.go:36-120 | in every reachable state, processed and then the item in hand and then the buffer is what was accepted, in order, each once, and the buffer is within capacity |
| BoundedQueue.PushedLastOrDropped | delivery_queue.go:36-69 | in every reachable state a push goes last, or changes nothing exactly when as many items wait as the queue was made for, one at least |
| BoundedQueue.ClosedMeansFlushed | delivery_queue.go:71-102 | a released Flush had everything accepted before its marker done |
| BoundedQueue.OnlyWorkerStepsCount | delivery_queue.go:71-75 | what is queued later never keeps a waiting item waiting; every worker step brings it one nearer |
| BoundedQueue.WorkerCanMove | delivery_queue.go:104-120 | while an item waits the worker has a step to take |
| BoundedQueue.WorkGetsDone | span_queue.go:51-67 | after as many worker steps as it had work ahead, the item is done, whatever is interleaved |
| Drain.RunKeepsInv | forgeops.go:148-173 | what each stage of Flush has made sure of, in every interleaving with records, pushes, workers, any number of other flushes and the startup snapshot |
| Drain.FlushLeavesNothingBehind | forgeops.go:128-173 | if Flush returns true, all errors, changes and traces accepted before the call, and a startup snapshot under way that was not dropped, have been handed on; every request recorded before it was in a delivery attempt unless overlapping flushes mixed its transaction up, and so was every metric, and every infrastructure reading unless Flush was cut short, that overlapping flushes did not remove unsent |
| Drain.FlushAloneLeavesNothingBehind | forgeops.go:128-173 | with no exception but the last when the other flushes of a buffer do not overlap each other before Flush begins its own there |
| Drain.FlushIsCutShortIff | forgeops.go:164-209 | Flush is cut short if and only if its own flush of the metrics ends by letting go of its batch when more entries were removed since than accepted |
| DrainProgress.MovesOnIff | forgeops.go:148-173 | Flush gets on exactly when what it waits for is there: the snapshot pushed or dropped, room for its marker, its marker done with |
| DrainProgress.MarkerReleasesErrors | forgeops.go:158-160 | once the worker has taken as many steps as lay before the marker Flush gets past the error queue, whatever is pushed meanwhile |
| DrainProgress.MarkerReleasesSpans | forgeops.go:161-163 | and so past the span queue |
| DrainProgress.FlushReturns | forgeops.go:148-173 | in every interleaving, when time lasts, Flush has returned true once the workers, the startup goroutine and it have taken a number of steps fixed at the start, and two more for each item queued since |
| DrainProgress.FlushCanMove | forgeops.go:148-173 | until then one of them always has such a step to take |
| DrainProgress.FlushCanFinish | forgeops.go:148-173 | so from every reachable state Flush can come to return true |
| Drain.FlushCanSkipReadings | forgeops.go:164-209 | a run, from the start, in which Flush returns true and a reading recorded before it was never sent |
| SpanBuffer.SpanBuffer.constructor | span_buffer.go:35-46 | a trace with a root id, no spans and no duration |
| SpanBuffer.SpanBuffer.Record | span_buffer.go:51-90 | a root span gets the caller's span or no parent, any other span the given one; only the root sets the duration |
| SpanBuffer.SpanBuffer.IsSlow | span_buffer.go:92-99 | slow is a trace whose last recorded root span reached the threshold, and no trace without one |
| SpanTree.SlowMeans | span_buffer.go:86-99 | which in every run is what the duration kept beside the spans says |
| SpanParents.TraceStarts | span_buffer.go:135-147 | a new trace has a fresh root, and the context handed back has that root open; without tracing nothing changes |
| SpanParents.StartsUnderOpenSpan | span_buffer.go:120-178 | in every run a started span gets the span open in its context as its parent, and the context handed back has the new span open |
| SpanParents.RecordsUnderOpenSpan | span_buffer.go:183-189 | a span recorded as a whole gets the same parent, and is in its trace at once, with its duration |
| SpanParents.NestedSpans | span_buffer.go:159-178 | whatever happens in between, what starts in the context a started span handed back has that span as its parent |
| SpanParents.EndRecordsOnce | span_buffer.go:172-178 | ending a span records it in its own trace under its own id and parent, and a second time does nothing |
| SpanParents.FinishRecordsRoot | span_buffer.go:257-263 | finishing a trace records its root under the calling service's span, or under none |
| SpanParents.NothingWithoutTrace | span_buffer.go:157-189 | without a trace in the context nothing happens |
| SpanTree.StepKeepsInv | span_buffer.go:120-189 | starting, ending and recording spans and traces keep every parent in its own trace and earlier than its child |
| SpanTree.RunKeepsInv | span_buffer.go:120-273 | so does every interleaving of them |
| SpanTree.FollowParents | span_buffer.go:149-178 | from any started span the parents lead to its trace's root, in no more steps than there were starts |
| SpanTree.EverySpanReachesItsRoot | span_buffer.go:51-273 | in every run, from each recorded span that is no root following parents ends at the root of its own trace |
| SpanTree.ContextsDoNotMix | span_buffer.go:120-178 | no context pairs one trace with a span of another |

## Left out

- MetricHistory.HistoryIsExact: one flush in flight, any number of records interleaved, because it fails for overlapping flushes (see above).
- PerformanceHistory.EveryRun: the same, and the clock never runs backwards.
- PerformanceHistory.RetriesAreCounted: the same.
- A panic while the startup snapshot is built is not modelled.
- SpanTree.EverySpanReachesItsRoot: fresh span ids are assumed distinct, as 64 random bits practically are.
- Text is a sequence of ASCII characters: runes, Unicode white space and case folding beyond ASCII are not modelled, so the cuts to 4000, 200 and 40 count characters.
- E-mail replacement is any function; the other patterns of ScrubString and the search for IBAN candidates are library regular expressions.
- Durations are real numbers and counts unbounded integers: no rounding of sums, no overflow at 64 bits.
- A metric is its finite or non-finite value and its other content as one opaque part; copying of entries and histograms is the copying of values, so aliasing of a snapshot with live maps is not captured.
- Performance records under strict privacy first rename the transaction; the model starts after that.
- Queue payloads are opaque; a delivery that panics is recovered by the worker and counts as done, as one that fails.
- Waiting for room in a channel and for a marker is modelled by steps that are taken once possible; time runs out at any step. Goroutine start-up and lazily made components appear only as what Flush finds.
- Span names, kinds, timestamps and data, the choice whether a finished trace is sent, and the trace ids themselves.
- Building and parsing the traceparent header.
- findSQL, WithSQL, strictSpanName, strictHost and the reduction of events.
- HTTP delivery, JSON, DSN and URL parsing, configuration, logging, breadcrumbs, events, source context, ScrubValue and the web integrations.
