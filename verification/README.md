# TataTuya: a verified model of its storage, history import and billing core

TataTuya reads the cumulative energy of Tuya meters, stores readings append-only in an encrypted
database, and bills the difference between two of them. This project models the parts of it in which
a mistake would lose data, store a wrong value or bill a wrong amount, and proves what they promise.

## What is modelled

* **Conversion** – the crash-safe conversion of a plaintext database into an encrypted one, and its
  recovery. The durable state is four file names (main, rollback, temporary, marker), the secret store,
  and the number of temporary files whose names nobody knows any more. `Step` lists every single durable
  change as a guarded action; a run is any sequence of steps. A crash changes nothing on disk but who knows
  the name of a temporary, so every interleaving of crashes, faults, cancellations and restarts, recovery
  included, is a run. Class `Database` is the program; every write it makes is appended to a history that
  is proved to be a run, so all theorems about runs are about the program.
* **Decimals, Numerals, Energy** – Python's `Decimal` as sign, digit string and exponent; its fixed-point and
  scientific text, its text constructor with the grammar it accepts, its numeric order; canonical text and
  normalization.
* **Json, ReportLogs, ReportPages** – checks on typed page values; the paginated, budgeted, paced fetch. `Collect`
  is the specification of a fetch over the pages received; the gateway's loops are proved to return its
  verdict, and theorems say what that verdict means, in terms of the fields of the pages.
* **Redaction, RedactedHistory** – what the application's own client does to a payload before the gateway
  sees it, and exactly which pages the gateway then accepts. The gateway is written against any page client
  (`src/tatatuya/infrastructure/tuya/report_logs.py:34-46`), so `ReportLogClient` is modelled with its
  secrets, as the application's client, or without, as one that hands pages on as they came.
* **FetchRuns** – how much whole fetches read beyond what they charge, the runs that reach it, and concrete
  histories.
* **Fingerprint, CloudHistory** – the framed bytes an event key is hashed from, the daily reduction,
  and the import workflow that chains specification, fetch, reduction and store.
* **Readings, ReadingStore** – the readings table with its unique indexes, import and capture on it, and
  the transactions around them.
* **Client, Devices, ReadingService, Cancellation** – bounded body reading, device listing, the device
  cache merge, status capture in batches, and the deadline with its save reserve.
* **Billing, Formatters** – `-` and `*` in the default decimal context (28 digits, half to even) and the
  Romanian rendering with the parser that reads it.

`Common` and `Arithmetic` hold shared datatypes and the product facts the solver wants stated.

Code that changes state step by step is a method over a class with the same fields; code made of
expressions is a function. Faults, answers of remote services, the clock and other threads are
nondeterministic: a method that is said to hold its contract holds it for every such choice.

### Assumptions

* One process at a time holds the database lock, and directory changes become durable in program order.
  (Recovery makes no directory `fsync` between `src/tatatuya/infrastructure/database.py:563` and `:592`.)
* SQLCipher is abstract: verification may refuse a sound file but accepts no unsound one; a file
  installed by rename may turn out damaged, which the verification of the active file notices.
* A remote call ends, answered or failed, within the timeout it was granted, measured from the moment it was granted.
* A time zone is any function from instants to local dates. Only `CloudHistory.AtMostSevenDays` and
  `CloudHistory.RecentWindowIsExact` ask for more: dates never go back, each date's midnight lies on that date, and,
  for the second, no earlier instant does.

### Where the code does less than its description

* Cloud import stores nothing through the client that the application wires up (`src/tatatuya/ui/app.py:264-271`).
  That client reads every JSON number as a Decimal and then redacts the page, which turns every Decimal into
  text (`src/tatatuya/infrastructure/tuya/client.py:596`, `:731-735`); the gateway refuses text as `event_time`
  and as `total` (`src/tatatuya/infrastructure/tuya/report_logs.py:308-328`). `RedactedHistory.PageIsAcceptedExactly`
  is the exact condition: a page passes if and only if it ends the history with no rows and no total.
  `FetchRuns.EventIsLost` is an input, and `CloudHistory.RedactedImportIsEmpty` the consequence. The results
  about non-empty histories hold for a page client that does not redact.
* A plaintext database without a settings table, with a broken foreign key or constraint, or with an unsupported
  value type, or a stored key that is not 32 bytes, never converts: every start fails and the original stays
  untouched. `Conversion.OneCleanStartConverges` has the exact condition, `Conversion.WithoutSettingsNeverConverts`
  an instance.
* A process that dies while writing the marker leaves a torn one (`Conversion.TornMarkerIsReachable`).
  Every later start then refuses without changing anything; nothing has moved
  (`Conversion.RecoveryIsNeverAmbiguous`).
* When a conversion attempt ends with a temporary file that no whole marker names, its name is lost, and the file
  outlives every later start, the successful conversion included (`Conversion.StraysStay`,
  `Conversion.StrayIsReachable`).
* `docs/ARCHITECTURE.md:484` limits a history to 4,950 returned rows before deduplication. The code counts the
  events it kept and the rows of the next page: `FetchRuns.RepeatedRowsPassTheCap` is a history of 9,800 rows it
  accepts, and `FetchRuns.CapsAgreeExactly` says when the two caps agree.
* A known secret that shares a character with the mark `[REDACTED]` can stand in a scrubbed text, put there by the
  mark; every other one is gone (`Redaction.KnownSecretsAreGone`, `Redaction.MarkCanHoldASecret`).
* A whole number of four or more digits is not read back from its own rendering: its grouping dot is taken
  for a decimal point, or the text is refused. `Formatters.RoundTripCondition` is the exact condition and
  `Formatters.GroupedIntegerIsMisread` an instance.

The 10 MiB of `docs/ARCHITECTURE.md:485-487` count successful pages, and the code keeps that limit
(`ReportLogs.TuyaReportLogGateway.ListEvents`). They do not limit what is read in all, since a failed attempt is
read and not charged. `FetchRuns.NoRunReadsMore` and `FetchRuns.SomeRunReadsTheMost` give the exact worst case of a
successful run for the sizes of its pages, `FetchRuns.ReadIsBounded` bounds it by 110 MiB and shows that 10 MiB hold
when no attempt failed after reading a body, and `FetchRuns.MoreThanTenMebibytes` is a run of 12 requests that
reads 12 MiB.

## Model

| member | source | states |
|---|---|---|
| Conversion.StepKeepsSafe | src/tatatuya/infrastructure/database.py:292-428 | every durable step of conversion, recovery or fresh start keeps the invariant that ties the four file names, the key and the secret to the original |
| Conversion.RunsAreSafe | src/tatatuya/infrastructure/database.py:292-593 | the invariant holds in every state of every run, however often the program stops and starts |
| Conversion.OriginalIsNeverLost | src/tatatuya/infrastructure/database.py:536-593 | at any moment main has the original rows readable with the stored key, or main is missing or damaged, the marker is complete and rollback is the untouched original |
| Conversion.FreshDatabaseNeverHidesData | src/tatatuya/infrastructure/database.py:184-204 | the fresh-database step is only ever taken when there was no database at the start and no artifact lies beside it |
| Conversion.KeyIsNeverReplaced | src/tatatuya/infrastructure/database.py:319-332 | between any two moments of a run a stored key stays the same |
| Conversion.CopiesOpenWithStoredKey | src/tatatuya/infrastructure/database.py:319-387 | every encrypted file made from a plaintext original opens with the key in the store at that moment |
| Conversion.SecretOutlivesPlaintext | src/tatatuya/infrastructure/database.py:295-317 | once no plaintext copy is left the store holds the exact secret it carried, and the encrypted copy does not hold it |
| Conversion.SecretComesFromSomewhere | src/tatatuya/infrastructure/database.py:298-317 | the stored secret is the one before the run or the one of the plaintext database, never a third |
| Conversion.RecoveryIsNeverAmbiguous | src/tatatuya/infrastructure/database.py:559-591 | plaintext main beside a rollback, and a complete marker with neither main nor rollback, are unreachable; a torn marker means main is still the original |
| Conversion.TornMarkerIsReachable | src/tatatuya/infrastructure/database.py:510-534 | a run that ends with a torn marker exists for every original |
| Conversion.StraysComeFromForgetting | src/tatatuya/infrastructure/database.py:334-341 | the number of temporary files nobody can name goes up by one exactly when an attempt ends with a temporary that no whole marker names, and no other step changes it |
| Conversion.StraysStay | src/tatatuya/infrastructure/database.py:334-341 | no later moment of a run has fewer of them |
| Conversion.StrayIsReachable | src/tatatuya/infrastructure/database.py:334-428 | a run exists for every convertible original that ends converted with such a file beside the database |
| Conversion.UnconvertibleStaysPlain | src/tatatuya/infrastructure/database.py:358-387 | contents that fail one of the checks are the untouched plaintext main at every moment of every run |
| Conversion.WithoutSettingsNeverConverts | src/tatatuya/infrastructure/database.py:372-375 | a sound database without a settings table is an instance: it never converts |
| Conversion.AcceptedNamesAreWritten | src/tatatuya/infrastructure/database.py:595-610 | a marker entry is accepted if and only if it is prefix, non-empty variable part, suffix; an accepted name is used as itself and has no separator |
| Conversion.AcceptedCharacters | src/tatatuya/infrastructure/database.py:595-610 | position by position: everything between prefix and suffix is a lower-case letter, a digit or an underscore, and there is something |
| Conversion.OneCleanStartConverges | src/tatatuya/infrastructure/database.py:153-204 | from every reachable state, one undisturbed start succeeds if and only if the marker is not torn and either main is encrypted already or the original has a settings table, holds foreign keys and constraints, has supported values, and a stored key is well formed; success leaves exactly the original without the secret row, encrypted, with no marker, rollback or named temporary; failure leaves the original; unnamed temporaries stay, one more exactly when the start found a temporary that no whole marker names |
| Conversion.StartingAgainChangesNothing | src/tatatuya/infrastructure/database.py:153-204 | an undisturbed start after a successful one succeeds and changes nothing |
| Conversion.RecoveryIsIdempotent | src/tatatuya/infrastructure/database.py:536-593 | on every reachable state recovery twice is recovery once, keeps the invariant, and gives back the original unless main is already the encrypted export |
| Conversion.Database.constructor | src/tatatuya/infrastructure/database.py:55-83 | the program starts beside one database or none, and its history is that one state |
| Conversion.Database.Verify | src/tatatuya/infrastructure/database.py:652-725 | a file passes only if it opens with the key and not with a turned or an empty one, its foreign keys and constraints hold, and its settings table has no secret row; undisturbed exactly those files pass |
| Conversion.Database.RecoverInterruptedMigration | src/tatatuya/infrastructure/database.py:536-593 | every write is a step; without marker or with a torn one nothing changes; with a complete one it ends recovered or rolled back; the ambiguity, cannot-recover and key errors are never raised; undisturbed it computes exactly `Recovered` |
| Conversion.Database.RecoverFromEncryptedMain | src/tatatuya/infrastructure/database.py:567-589 | the branch with a non-plaintext main keeps it only when verified, otherwise puts rollback back, and drops the temporary |
| Conversion.Database.StoreLegacySecret | src/tatatuya/infrastructure/database.py:298-317 | a normal return means the store holds this secret; nothing else changes |
| Conversion.Database.CreateDatabaseKey | src/tatatuya/infrastructure/database.py:322-332 | a normal return means the store holds the new well-formed key; nothing else changes |
| Conversion.Database.SecureCredentials | src/tatatuya/infrastructure/database.py:295-332 | before any file is made the secret is kept and a well-formed key stored; an existing key stays |
| Conversion.Database.MigratePlaintextDatabase | src/tatatuya/infrastructure/database.py:292-428 | a normal return means converted, whatever failed on the way; undisturbed it succeeds exactly for convertible contents and a usable key, otherwise main is untouched and no marker stays |
| Conversion.Database.CleanUpAfterFailure | src/tatatuya/infrastructure/database.py:421-428 | the handler recovers when a marker exists and otherwise drops the temporary, by steps only |
| Conversion.Database.ReplaceByExport | src/tatatuya/infrastructure/database.py:341-420 | marker, export, checks and exchange: a normal return means converted with the held key; main is never missing without a marker |
| Conversion.Database.ExchangeFiles | src/tatatuya/infrastructure/database.py:396-417 | both renames and the clean-up end with exactly the verified temporary as main, or with a state recovery handles |
| Conversion.Database.WriteMarker | src/tatatuya/infrastructure/database.py:510-534 | a normal return means a complete marker; a fault in between leaves it absent or torn and touches nothing else |
| Conversion.Database.ExportToTemporary | src/tatatuya/infrastructure/database.py:342-385 | only an export that equals the source without its secret row is accepted, however faulty the export was, and only of a source with a settings table and supported values |
| Conversion.Database.PrepareStorage | src/tatatuya/infrastructure/database.py:153-204 | every start makes steps only, raises neither classification error, changes no file beside a torn marker, and undisturbed has exactly the outcome `Settles` |
| Conversion.Database.Restart | src/tatatuya/infrastructure/database.py:55-83 | a new process finds the disk as it was, except that nobody knows the name of a temporary without a whole marker |
| Decimals.ReducedKeepsValue | src/tatatuya/domain/energy.py:35-39 | moving trailing zeros of the coefficient into the exponent keeps the number |
| Decimals.ReducedIsUnique | src/tatatuya/domain/energy.py:35-39 | numerically equal non-zero Decimals have the same reduced form |
| Decimals.NumEqTransitive | src/tatatuya/domain/energy.py:31-39 | numeric equality, defined by aligning exponents, is transitive |
| Decimals.FixedTextReadsBack | src/tatatuya/domain/energy.py:35-39 | fixed-point text is read as the same number always, and as the same Decimal when it has a fraction |
| Numerals.ReadingIsTheGrammar | src/tatatuya/domain/energy.py:97-102 | the constructor reads a text as d if and only if the text, stripped and without underscores, is a numeral of the grammar (sign, digits around an optional point, optional exponent mark) that denotes d |
| Energy.CanonicalIsReducedText | src/tatatuya/domain/energy.py:31-39 | stripping zeros and point from the rendered text equals rendering the reduced number |
| Energy.CanonicalDecimalLength | src/tatatuya/domain/energy.py:42-63 | the length computed from digits and exponent in a loop is the length of the canonical text, for every Decimal |
| Energy.CanonicalTextReadsBack | src/tatatuya/domain/energy.py:31-39 | canonical text is read as a numerically equal Decimal |
| Energy.TextIdentifiesNumber | src/tatatuya/domain/energy.py:31-39 | two Decimals have the same canonical text if and only if they are numerically equal |
| Energy.NormalizationIsExact | src/tatatuya/domain/energy.py:81-152 | the unit is spelled kWh or Wh, and an accepted result times ten to the scale, for Wh to the scale and three, is the raw value exactly, with the same digits; both texts have at most 128 characters |
| Energy.RawNumberIsReadExactly | src/tatatuya/domain/energy.py:94-106 | a raw value is read as d if and only if it is that Decimal, that integer, or a text that writes d down; booleans never |
| Energy.EnergyIsAcceptedExactly | src/tatatuya/domain/energy.py:81-134 | n is the result if and only if the scale is 0 to 123, the unit without blanks, spaces, middle dots and case is kwh or wh, the raw value is n times ten to the scale or, for wh, to the scale and three, and both have at most 128 characters |
| Energy.EnergyIsRefusedInOrder | src/tatatuya/domain/energy.py:81-134 | which refusal comes for which input: the scale first, then the value, then its length, then any other spelling of the unit |
| Energy.UnitSamples | src/tatatuya/domain/energy.py:21-28 | 12345 at scale 2 is 123.45 in kWh, however it is spaced or dotted, and 0.12345 in Wh; MWh is refused |
| Energy.NormalizationIsMonotone | src/tatatuya/domain/energy.py:81-152 | results compare exactly as the raw values do, strictly and for equality |
| Energy.MaxScaleIsTight | src/tatatuya/domain/energy.py:11-14 | raw 1 fits in both units at a scale if and only if the scale is at most 123 |
| Json.IntegersAreExact | src/tatatuya/infrastructure/tuya/report_logs.py:308-328 | a field is accepted as n if and only if it is the integer n, or a non-negative decimal numerically equal to it, and n is in range |
| Json.ScientificTextReadsBack | src/tatatuya/infrastructure/tuya/report_logs.py:252-256 | the text whose length is limited, `str` of a Decimal, is read back as that very Decimal |
| Json.ScientificTextShape | src/tatatuya/infrastructure/tuya/report_logs.py:252-256 | that text is the fixed-point text of a Decimal without trailing places and not below 1E-6, and otherwise one digit, the rest after a point, and the signed exponent |
| Json.MatchedTextIsANumber | src/tatatuya/infrastructure/tuya/report_logs.py:260-273 | every text the pattern admits is a number and not a negative one, so the constructor after the match cannot fail |
| Json.PatternIsTheGrammar | src/tatatuya/infrastructure/tuya/report_logs.py:30-30 | a text passes the pattern and is read as d if and only if it is an unsigned numeral without leading zeros and with digits after a point that denotes d |
| Json.ReportValueIsAcceptedExactly | src/tatatuya/infrastructure/tuya/report_logs.py:245-286 | a value is accepted as d if and only if it is the Decimal d, the integer d or a pattern text that denotes d, without sign, of at most 64 digits, 128 characters as given and 128 of canonical text |
| Json.EveryNumberFits | src/tatatuya/infrastructure/tuya/report_logs.py:347-388 | a row can be kept for diagnosis if and only if every Decimal at any depth inside it has a canonical text of at most 128 characters |
| Json.AcceptedValueIsRenderable | src/tatatuya/infrastructure/tuya/report_logs.py:274-285 | an accepted value is non-negative with at most 64 digits and has canonical text within the limit |
| Redaction.NoNumberSurvives | src/tatatuya/infrastructure/tuya/client.py:723-736 | after redaction no field, whatever it held, is accepted as an integer |
| Redaction.NumberIsWrittenDown | src/tatatuya/infrastructure/tuya/client.py:731-735 | a number becomes its canonical text, which reads back as that number, or is discarded when that is too long |
| Redaction.SensitiveKeysAreExactly | src/tatatuya/infrastructure/tuya/parsers.py:284-301 | a field is sensitive if and only if the letters and digits of its name contain one of seven words |
| Redaction.KnownSecretsAreGone | src/tatatuya/infrastructure/tuya/client.py:717-720 | no known secret that shares no character with the mark occurs in a scrubbed text, whatever the other secrets |
| Redaction.MarkCanHoldASecret | src/tatatuya/infrastructure/tuya/client.py:717-720 | one that does share its characters can occur: the secret E in the mark itself |
| Redaction.OtherTextIsKept | src/tatatuya/infrastructure/tuya/client.py:717-720 | a text without any known secret is left as it is |
| Redaction.NoSecretSurvives | src/tatatuya/infrastructure/tuya/client.py:723-736 | at any depth of a redacted payload a text holds none of those secrets unless it writes a number down |
| RedactedHistory.RowNeverParses | src/tatatuya/infrastructure/tuya/client.py:596-598 | no row of a redacted page is accepted as an event |
| RedactedHistory.PageIsAcceptedExactly | src/tatatuya/infrastructure/tuya/client.py:553-603 | a redacted page is accepted if and only if it has no further page, no rows, no total and no other device |
| RedactedHistory.RedactedHistoryIsEmpty | src/tatatuya/infrastructure/tuya/client.py:553-603 | a fetch through the redacting client ends with its first page and succeeds only on an empty history |
| FetchRuns.EventIsLost | src/tatatuya/infrastructure/tuya/client.py:596-598 | a history of one event is accepted as the transport parsed it and refused as the client delivers it |
| ReportLogs.EventIsAcceptedExactly | src/tatatuya/infrastructure/tuya/report_logs.py:216-242 | a row is accepted as an event if and only if its code is the one asked for, its moment and value are those its two fields say, the moment lies in the window, and every number in the row fits |
| ReportLogs.CollectedIsExact | src/tatatuya/infrastructure/tuya/report_logs.py:83-170 | accepted pages: one event per moment, each one of the rows, each row represented with an equal value, at most 4,950 events, no cursor handed out twice |
| ReportLogs.ReturnedHistoryIsExact | src/tatatuya/infrastructure/tuya/report_logs.py:142-157 | the sorted result is strictly increasing, inside the window, of the device and code, one event per distinct moment over all rows; each event has the moment and the number of the fields of one of the rows, each row has the code asked for, and rows that share a moment agree numerically |
| ReportLogs.SortingKeepsMoments | src/tatatuya/infrastructure/tuya/report_logs.py:156-156 | the sort by time keeps the order of events of one moment |
| ReportPages.PageIsReadExactly | src/tatatuya/infrastructure/tuya/report_logs.py:98-140 | a page is read as a view if and only if its fields say it: each name of the device says the device, the two names of the paging mark agree, rows are a list and not empty before the end, and a total contradicts none before |
| ReportPages.CursorIsReadExactly | src/tatatuya/infrastructure/tuya/report_logs.py:157-168 | the next cursor is the non-empty text under each of its names that is given, and not one met before |
| ReportPages.RowsAreAcceptedExactly | src/tatatuya/infrastructure/tuya/report_logs.py:143-154 | more rows are accepted if and only if each is an event and all rows so far agree on every moment |
| ReportPages.NextPageIsAcceptedExactly | src/tatatuya/infrastructure/tuya/report_logs.py:98-169 | after any accepted pages: too much exactly beyond 4,950 kept and arriving rows; otherwise accepted if and only if the rows are events that agree with all before and a page that is not the last names a new cursor |
| ReportPages.UnreadPageIsInvalid | src/tatatuya/infrastructure/tuya/report_logs.py:98-140 | a page whose fields do not read is invalid |
| ReportPages.TotalsAgree | src/tatatuya/infrastructure/tuya/report_logs.py:128-140 | all totals announced by accepted pages are one integer |
| ReportLogs.HistoryIgnoresPaging | src/tatatuya/infrastructure/tuya/report_logs.py:83-170 | results over the same moments and values agree moment by moment, however the rows were split, ordered or repeated |
| ReportLogs.NoCursorTwice | src/tatatuya/infrastructure/tuya/report_logs.py:158-169 | two requests carry the same cursor if and only if they are attempts at the same page |
| ReportLogs.ReportLogClient.GetReportLogPage | src/tatatuya/infrastructure/tuya/client.py:553-603 | one logged request; an accepted page is the redacted payload, stays within both allowances, and what was read for it is charged in full; a failure charges nothing and reads at most 65,537 bytes of an HTTP error, or one byte more than the smaller of 1 MiB and what is left |
| ReportLogs.RequestPacer.WaitBeforeRequest | src/tatatuya/infrastructure/tuya/report_logs.py:296-305 | a normal return records a start at least 250 ms after the last one, uncancelled and before the deadline; otherwise a stop and no new start |
| ReportLogs.TuyaReportLogGateway.FetchWithRateRetry | src/tatatuya/infrastructure/tuya/report_logs.py:172-202 | at most three attempts at one page with one cursor; a further attempt only after rate limiting and after its delay; the error is that of the last attempt |
| ReportLogs.TuyaReportLogGateway.AbsorbPageRows | src/tatatuya/infrastructure/tuya/report_logs.py:143-154 | the loop with its dictionary of seen moments gives exactly the specification's verdict on the rows |
| ReportLogs.TuyaReportLogGateway.AbsorbFetchedPage | src/tatatuya/infrastructure/tuya/report_logs.py:103-169 | page checks, row cap, rows, end or next cursor give exactly the specification's verdict on the page |
| ReportLogs.TuyaReportLogGateway.ListEvents | src/tatatuya/infrastructure/tuya/report_logs.py:59-170 | refuses exactly a query without device or code, with a negative start or an end before it; otherwise returns exactly the specification's verdict over the pages received, and fetches none after a refused or final one; at most 50 pages and 150 requests, asked for in order with the cursor last handed out; every attempt is allowed exactly what accepted pages left of 10 MiB and of as many decoded characters, which they never exceed; starts 250 ms apart, never once cancelled or past the deadline; every error has its cause |
| FetchRuns.ReadIsChargedOrFailed | src/tatatuya/infrastructure/tuya/report_logs.py:97-102 | the bytes of a run are those of its accepted pages and those of its failed attempts; without bytes of failed attempts the charged ones are all |
| FetchRuns.ReadIsBounded | src/tatatuya/infrastructure/tuya/report_logs.py:79-102 | a run reads at most 10 MiB and 1 MiB for each failed attempt, plus one byte; exactly the charged bytes when no failed attempt read a body; at most 110 MiB when it ends with an accepted page |
| FetchRuns.NoRunReadsMore | src/tatatuya/infrastructure/tuya/report_logs.py:184-202 | a run that ends with an accepted page reads at most its pages and, before each, two refusals of the greatest length that is left |
| FetchRuns.SomeRunReadsTheMost | src/tatatuya/infrastructure/tuya/report_logs.py:184-202 | for any page sizes within the limits a run that reads exactly this much keeps the order, pacing and budget of a fetch and ends with a whole history |
| FetchRuns.MoreThanTenMebibytes | src/tatatuya/infrastructure/tuya/report_logs.py:184-202 | four pages of 1 MiB, each refused twice with 1 MiB, are a successful run that reads 12 MiB |
| FetchRuns.CapsAgreeExactly | src/tatatuya/infrastructure/tuya/report_logs.py:141-142 | what a cap on returned rows admits the code admits, and both admit the same next pages if and only if no row so far was a repeat |
| FetchRuns.RepeatedRowsPassTheCap | src/tatatuya/infrastructure/tuya/report_logs.py:141-142 | two pages of 4,900 rows that repeat one event are accepted |
| Client.ReadBounded | src/tatatuya/infrastructure/tuya/client.py:817-852 | returns the whole body if it fits the allowance, otherwise fails after at most one byte more; each error has its cause |
| Client.FirstRowWins | src/tatatuya/infrastructure/tuya/client.py:511-512 | of rows with one id the first is kept |
| Client.MergePage | src/tatatuya/infrastructure/tuya/client.py:511-516 | merging rows one by one gives the distinct devices of all rows so far, or a refusal exactly when they exceed 5,000 |
| Client.ListDevices | src/tatatuya/infrastructure/tuya/client.py:500-526 | succeeds if and only if the listing was followed to its end within the limits, then with the first row of each id; at most 50 pages, each asked for with the cursor the one before gave, none twice; every failure has its cause |
| Fingerprint.FrameIsDecodable | src/tatatuya/services/cloud_history_service.py:228-230 | a length-framed UTF-8 string at the start of bytes can be read off in only one way |
| Fingerprint.PayloadIsDecodable | src/tatatuya/services/cloud_history_service.py:210-225 | two payloads are equal if and only if device, code, millisecond and raw text are |
| Fingerprint.KeyIsTheFramedText | src/tatatuya/services/cloud_history_service.py:210-230 | of ASCII texts the bytes are the tag, a zero byte, and device, code, millisecond and raw text in this order, each behind its length and a colon |
| Fingerprint.KeyIdentifiesEvent | src/tatatuya/services/cloud_history_service.py:210-230 | two events hash the same bytes if and only if device, code, millisecond and numeric value agree |
| CloudHistory.ConversionsUndo | src/tatatuya/services/cloud_history_service.py:233-243 | milliseconds to an instant and back is the identity; the other way rounds down by less than a millisecond |
| CloudHistory.FillEarliest | src/tatatuya/services/cloud_history_service.py:163-171 | the dictionary filled in time order holds, for exactly the dates met, an event of that date that none precedes, the first of its moment |
| CloudHistory.ReduceDailyEvents | src/tatatuya/services/cloud_history_service.py:156-207 | one candidate per distinct local date, in date order, each made from the earliest event of its date, the first in the given order of its moment; an error is that of the first date whose event makes no candidate |
| CloudHistory.ReductionIsDetermined | src/tatatuya/services/cloud_history_service.py:163-171 | one list of events has one reduction |
| CloudHistory.ReductionIgnoresOrder | src/tatatuya/services/cloud_history_service.py:163-171 | with distinct moments the reduction depends only on the set of events |
| CloudHistory.AtMostSevenDays | src/tatatuya/services/cloud_history_service.py:143-153 | events inside the recent bounds of a calendar fall on at most seven dates, from six days ago to today |
| CloudHistory.RecentWindowIsExact | src/tatatuya/services/cloud_history_service.py:143-153 | where midnights open their dates, a millisecond lies in the window if and only if it is not later than now and on one of the seven latest local dates |
| CloudHistory.CandidateShape | src/tatatuya/services/cloud_history_service.py:172-207 | a candidate carries its date, moment, code, scale and unit, its fingerprint, the exact normalized value, canonical raw text, and lies in the accepted range |
| CloudHistory.CandidateIsReproducible | src/tatatuya/services/cloud_history_service.py:172-207 | raw text, scale and unit of a cloud reading normalize again to a numerically equal value |
| CloudHistory.FetchedEventIsReducedExactly | src/tatatuya/services/cloud_history_service.py:172-181 | a fetched event makes a candidate if and only if the scale is 0 to 123, the unit is spelled kWh or Wh, and its value shifted by the scale, for Wh by three more, fits its text and is at most 1E30; that is then the value |
| CloudHistory.ReductionIsImportable | src/tatatuya/services/cloud_history_service.py:172-207 | what the reduction guarantees is what the import needs: complete candidates that fit, pairwise distinct keys, one per date |
| CloudHistory.CandidateFixesDay | src/tatatuya/services/cloud_history_service.py:172-225 | in one time zone a candidate's key determines its device and local day |
| CloudHistory.ImportRecent | src/tatatuya/services/cloud_history_service.py:83-140 | without verification nothing is requested; the error for a changed specification comes exactly when code, unit or scale differ between the two deliveries; only a run in which every stage succeeds changes the table, and then by exactly one import of the reduction of the exact history of the pages received; through the redacting client a success is an import of nothing |
| CloudHistory.DailyReadingsComeFromRows | src/tatatuya/services/cloud_history_service.py:83-207 | read off the pages: every row's local date has a reading no later than that row, and every reading has the moment, text and shifted number of a row, on that moment's local date |
| CloudHistory.RedactedImportIsEmpty | src/tatatuya/infrastructure/tuya/client.py:596-598 | a history that the redacting client delivered and the gateway accepted reduces to an empty batch, whose import changes nothing |
| CloudHistory.PipelineIsIdempotent | src/tatatuya/services/cloud_history_service.py:83-140 | a batch reduced from a fetched history and imported once imports again, after any imports and captures of that zone, with no new row and the same rows returned |
| Readings.InsertKeepsRules | src/tatatuya/infrastructure/migrations.py:106-112 | an accepted insert keeps distinct ids and both unique indexes |
| Readings.InsertIsAcceptedExactly | src/tatatuya/infrastructure/repositories/readings.py:20-75 | an insert is refused for a value beyond 128 characters first, then exactly for a stored key or a stored cloud row of its device and day; otherwise it is the row with the next id and the same number |
| Readings.StoredValueIsCanonical | src/tatatuya/infrastructure/repositories/readings.py:31-50 | equal numbers are stored as the same value, and a stored one stays as it is |
| Readings.StoredKeyDecides | src/tatatuya/infrastructure/repositories/readings.py:125-130 | a candidate whose key is stored is answered with that row if device, code, moment, raw value, scale, unit and numeric value agree, and is a conflict if any differs |
| Readings.StoredDayDecides | src/tatatuya/infrastructure/repositories/readings.py:131-137 | one with a new key whose device and day are stored is answered with the row of that day |
| Readings.NewDayIsAppended | src/tatatuya/infrastructure/repositories/readings.py:138-143 | one with neither is appended as the next row, or too long |
| Readings.EveryCandidateIsAnswered | src/tatatuya/infrastructure/repositories/readings.py:113-143 | an imported batch answers each candidate in its place, with its own event or the row of its day, and adds only answers |
| Readings.ConflictStopsTheBatch | src/tatatuya/infrastructure/repositories/readings.py:252-263 | one candidate that contradicts its stored event ends the whole import in a conflict, and the table stays |
| Readings.ImportAppendsOnly | src/tatatuya/infrastructure/repositories/readings.py:113-143 | an import only appends, by exactly the new count; new plus reused is the batch length; every answer is a stored row; both rules survive |
| Readings.AnsweredBatchAddsNothing | src/tatatuya/infrastructure/repositories/readings.py:117-132 | a batch whose candidates are all found imports as those rows, with nothing new |
| Readings.ReimportAddsNothing | src/tatatuya/infrastructure/repositories/readings.py:113-143 | importing a batch with pairwise distinct keys again adds nothing and returns the same rows |
| Readings.CaptureAppendsOnly | src/tatatuya/infrastructure/repositories/readings.py:82-111 | a capture appends one row per reading, in order, each as stored, and keeps both rules |
| Readings.HistoryAppendsOnly | src/tatatuya/infrastructure/repositories/readings.py:82-143 | over any sequence of imports and captures no stored row changes and both rules hold |
| Readings.ReimportAfterAnyHistory | src/tatatuya/infrastructure/repositories/readings.py:113-160 | with keys that determine their day, re-importing after any later imports and captures adds nothing and returns the same rows |
| ReadingStore.Connection.InsertRow | src/tatatuya/infrastructure/repositories/readings.py:20-75 | an insert opens a transaction and appends the stored form, or leaves the working table and names the rule or fault |
| ReadingStore.ReadingRepository.PrepareCapturePhase | src/tatatuya/infrastructure/repositories/readings.py:77-80 | what was written so far is committed, or nothing is |
| ReadingStore.ReadingRepository.AddAll | src/tatatuya/infrastructure/repositories/readings.py:82-111 | all readings of one response are committed, in order, or none; refused inside a transaction; the transaction begins under the granted busy timeout, which is put back however it ends |
| ReadingStore.ReadingRepository.InsertInTurn | src/tatatuya/infrastructure/repositories/readings.py:97-103 | the loop appends exactly the specified rows, or stops with the specified error or a fault |
| ReadingStore.ReadingRepository.ImportCloudDaily | src/tatatuya/infrastructure/repositories/readings.py:113-143 | the loop with its list and counters gives exactly the specified import, or its error or a fault |
| ReadingStore.ReadingRepository.ImportConnected | src/tatatuya/infrastructure/database.py:127-151 | inside a connection the whole batch is committed, or any refusal, fault or cancellation leaves the table as it was, and nothing is committed once cancelled or expired; an error that is no fault is the one specified |
| ReadingStore.BusyTimeoutMs | src/tatatuya/infrastructure/repositories/readings.py:92-96 | the whole milliseconds of the granted seconds, at least 1 and at most 5000 |
| Devices.EveryRunIsConsistent | src/tatatuya/infrastructure/repositories/devices.py:17-100 | over any run of discoveries and specification outcomes every supported row has code, unit and scale, every unsupported row has none, and no row disappears |
| Devices.ListedRowDecides | src/tatatuya/infrastructure/repositories/devices.py:17-97 | in a listing of distinct ids each row alone decides its device's stored row |
| Devices.DiscoveryEffect | src/tatatuya/services/device_service.py:31-45 | after a discovery presence is membership in the listing; a listed row holds what the listing says; an unchanged product keeps its classification, a changed or new one has none, an unlisted device keeps all but presence |
| Devices.DeviceRepository.Upsert | src/tatatuya/infrastructure/repositories/devices.py:17-97 | inserts the offered row or merges it into the stored one by the conflict rules, and returns the row stored |
| Devices.DeviceRepository.ListAll | src/tatatuya/infrastructure/repositories/devices.py:108-112 | every stored row once |
| Devices.DeviceRepository.MarkAllMissing | src/tatatuya/infrastructure/repositories/devices.py:99-100 | clears exactly the presence flags |
| Devices.DeviceService.Discover | src/tatatuya/services/device_service.py:31-45 | a failed listing writes nothing; otherwise the loop of upserts is the specified discovery and returns the stored rows in listing order |
| Devices.SpecificationEffect | src/tatatuya/services/device_service.py:47-106 | the row each outcome leaves, whatever was stored: written in full, cleared and unsupported, unknown with what the device or, for the same product, the stored row has, or untouched |
| Devices.OnlyValidIsReused | src/tatatuya/services/device_service.py:109-117 | the row left is complete, hence used again without a request, if and only if the outcome was valid with a code, a unit and a scale of 0 to 123 |
| Devices.DeviceService.EnsureEnergySpecification | src/tatatuya/services/device_service.py:47-106 | a complete cached specification is returned without a request exactly when no refresh is forced; otherwise one request is made, its outcome is written before it is returned or raised, and each outcome has its own result |
| ReadingService.ChunksFlatten | src/tatatuya/services/reading_service.py:284-286 | chunks concatenate to the ids, and all but the last are full |
| ReadingService.Chunks | src/tatatuya/services/reading_service.py:284-286 | no chunk is empty or larger than the batch size |
| ReadingService.OneUsableStatusMakesAReading | src/tatatuya/services/reading_service.py:252-281 | a reading is made if and only if exactly one status entry has the code and its value normalizes; it holds that entry's value and text, the device, time, scale, unit and source |
| ReadingService.RawTextReadsBack | src/tatatuya/services/reading_service.py:274-274 | the stored raw text of a usable value reads as the same Decimal |
| ReadingService.ReadingIsReproducible | src/tatatuya/services/reading_service.py:269-277 | raw text, scale and unit of a captured reading normalize again to its value |
| ReadingService.CaptureShape | src/tatatuya/services/reading_service.py:252-281 | a captured row has the unit and scale of its device's current specification, source `batch` and no event key |
| ReadingService.LatestIsNewest | src/tatatuya/infrastructure/repositories/readings.py:179-189 | no stored reading of the device is newer than the latest one, by time and then id |
| ReadingService.ReadingService.BuildPending | src/tatatuya/services/reading_service.py:111-142 | of each chunk member exactly one of a pending reading and a failure, each reading built from that member's own status and specification |
| ReadingService.ReadingService.CaptureChunk | src/tatatuya/services/reading_service.py:96-155 | one request for the chunk, and each of its devices meets the fate its own answer has under its prepared specification: a failure or a saved row; other devices are untouched; rows committed before stay |
| ReadingService.ReadingService.CaptureResponse | src/tatatuya/services/reading_service.py:113-155 | each device of an answered response meets the fate of its answer, and all its readings are saved in at most one transaction; it is given up for lack of time only when five seconds have passed since the answer |
| ReadingService.ReadingService.SavePending | src/tatatuya/services/reading_service.py:143-152 | all readings of a response are committed as stored, or none, in a transaction that waits for its lock at most until the deadline and five seconds after the response; refused for lack of time only five seconds or more after the answer |
| ReadingService.ReadingService.CommitMetadata | src/tatatuya/infrastructure/repositories/readings.py:77-80 | one commit covers readings and device rows, or neither |
| ReadingService.ReadingService.CaptureAll | src/tatatuya/services/reading_service.py:91-155 | one request for each batch of twenty in order; over all chunks each eligible device meets the fate of its own answer; everything appended, even when a later chunk fails, is a capture |
| ReadingService.ReadingService.PrepareSpecifications | src/tatatuya/services/reading_service.py:73-87 | one specification request for each listed device in order, whatever is cached; a device is prepared with exactly the valid specification delivered in this run, unsupported exactly for a conclusive refusal, and failed exactly for a malformed or unreachable one |
| ReadingService.ReadingService.Report | src/tatatuya/services/reading_service.py:157-196 | one result per listed device in order, then one silent result for each cached device marked missing |
| ReadingService.ReadingService.Refresh | src/tatatuya/services/reading_service.py:64-197 | over a listing followed to its end: each listed device is asked for its specification once and, if that is valid, for its status once, in batches of twenty; its result is what that specification and that answer make of it, a reading carrying the delivered unit and scale; exactly one row is appended for each reading; rows appended by a run that fails later carry a specification delivered in it; no stored row is lost on any outcome |
| ReadingService.ReadingService.RefreshConnected | src/tatatuya/infrastructure/database.py:127-151 | an error before the metadata stage was committed leaves readings and device rows as they were; the last commit is made only if neither cancelled nor expired; afterwards nothing stays uncommitted, whatever the outcome |
| ReadingService.ReadingService.CaptureIndividualStatus | src/tatatuya/services/reading_service.py:199-250 | one specification and one status request for the device; a normal return appended exactly the reading that the delivered status makes under the delivered specification, or says why not, lack of time only after five seconds since the answer; an error leaves the readings as they were |
| ReadingService.ReadingService.RequestUnderReserve | src/tatatuya/services/reading_service.py:96-112 | every call made inside the reserve, failed or answered, the token request included, is granted five seconds or what deadline and reserve leave, and ends five seconds before the deadline; at the return after an answer five seconds are left; lack of time is reported only when they are not |
| Cancellation.CancellationContext.Checkpoint | src/tatatuya/domain/cancellation.py:63-73 | returns normally if and only if neither cancelled nor expired, and says which; a stop stays a stop |
| Cancellation.CancellationContext.Wait | src/tatatuya/domain/cancellation.py:75-80 | a normal return waited in full and ended before the deadline; a wait cut short by the deadline raises |
| Cancellation.CancellationContext.Run | src/tatatuya/domain/cancellation.py:45-61 | over any nested work no call, failed or answered, runs under a smaller reserve than the one around it, the reserve is put back however the work ends, work that ends normally made all its calls, and a failed call is the last |
| Cancellation.CancellationContext.ReserveAfterRemote | src/tatatuya/domain/cancellation.py:45-61 | every call inside, failed or answered, for any number of calls and nested reserves, ends with the reserved seconds left; they are still left at the return from work that ends with a call, and when a failed call stopped it |
| Cancellation.CancellationContext.CaptureTimeout | src/tatatuya/services/reading_service.py:289-303 | granted if and only if time is left: exactly until the deadline or five seconds after the response, whichever is first |
| Cancellation.SaveBudgetShrinks | src/tatatuya/services/reading_service.py:289-303 | the save budget shrinks by exactly the time that passes, and is refused from one moment on |
| Cancellation.AnswerLeavesTimeToSave | src/tatatuya/services/reading_service.py:289-303 | an answer that left the five reserved seconds is refused its save only when five seconds pass between answer and save |
| Billing.RoundingCore | src/tatatuya/domain/billing.py:53-53 | the kept integer is within half a unit, even on a tie, and rounding is monotone against multiples of the unit |
| Billing.FixRounds | src/tatatuya/domain/billing.py:53-53 | the context's result is exact up to the precision and otherwise the nearest one, ties to even (section 4.3.1 of IEEE 754-2008) |
| Billing.NothingIsCloser | src/tatatuya/domain/billing.py:85-85 | no Decimal of at most that many digits, of any sign and exponent, is closer to an exact result of any exponent |
| Billing.DifferenceIsNearest | src/tatatuya/domain/billing.py:85-85 | no Decimal of 28 digits is closer to the exact difference than the one `-` returns |
| Billing.ProductIsNearest | src/tatatuya/domain/billing.py:53-53 | no Decimal of 28 digits is closer to the exact product than the one `*` returns |
| Billing.SubtractionKeepsOrder | src/tatatuya/domain/billing.py:85-86 | the rounded difference is below zero exactly when the first reading is smaller, and zero exactly when they are equal |
| Billing.ConsumptionIsAcceptedExactly | src/tatatuya/domain/billing.py:58-92 | a pair is accepted if and only if both are stored, of one device, different, the end later or at the same time with the greater id, both units spelled kWh or Wh, and the end is not below the start exactly; the decrease error likewise |
| Billing.PeriodIsRefusedInOrder | src/tatatuya/domain/billing.py:33-92 | which refusal comes for which pair, and the price last |
| Billing.OneOrderOnly | src/tatatuya/domain/billing.py:58-92 | of two readings at most one order is accepted |
| Billing.ConsumptionIsRounded | src/tatatuya/domain/billing.py:85-92 | an accepted consumption is the exact difference rounded half to even at 28 digits, and not negative |
| Billing.TotalIsRounded | src/tatatuya/domain/billing.py:33-55 | the total is the exact product of the accepted consumption and a positive price, rounded the same way, between the ids of the two readings in their order |
| Billing.AdjacentPeriodsAddUp | src/tatatuya/domain/billing.py:85-92 | when none of the three exact differences has more than 28 digits, consumptions of adjacent periods add up |
| Billing.ResolvedPriceIsBillable | src/tatatuya/domain/billing.py:95-107 | a resolved price is accepted by the period calculation, and the total is zero exactly when the readings are equal |
| Billing.TypedTextDecides | src/tatatuya/domain/billing.py:95-107 | a text that is not blank decides alone, the number it says if positive and otherwise an invalid price; a blank one leaves the remembered price if positive; with neither the price is missing |
| Billing.PriceWithoutComma | src/tatatuya/domain/billing.py:13-30 | without a comma a text is read as d if and only if it writes d down as it stands |
| Billing.PriceWithComma | src/tatatuya/domain/billing.py:13-30 | with one comma it is read as d if and only if it writes d down once dots are dropped and the comma is the point |
| Billing.SpacesAreIgnored | src/tatatuya/domain/billing.py:15-15 | blanks around it, and spaces and no-break spaces inside, make no difference |
| Formatters.GroupThousands | src/tatatuya/ui/formatters.py:22-28 | the loop that takes three digits off the right gives the grouped digits |
| Formatters.FormatDecimal | src/tatatuya/ui/formatters.py:12-29 | the rendering is sign, grouped whole part, and the fraction after a comma |
| Formatters.FractionRoundTrips | src/tatatuya/ui/formatters.py:12-29 | a number with a fraction is read back as the very same Decimal, for any number of groups |
| Formatters.PrintedPriceIsTaken | src/tatatuya/domain/billing.py:95-107 | a positive price typed as it is printed, with a fraction, is the price, whatever is remembered |
| Formatters.RoundTripCondition | src/tatatuya/domain/billing.py:13-30 | printer and parser undo each other if and only if there is a fraction or the whole part has at most three digits |
| Formatters.OneDotMisreads | src/tatatuya/domain/billing.py:13-30 | four to six whole digits are read as a different number |
| Formatters.TwoDotsAreRejected | src/tatatuya/domain/billing.py:13-30 | seven or more whole digits are refused |
| Formatters.GroupedIntegerIsMisread | src/tatatuya/domain/billing.py:13-30 | 1234 is rendered as 1.234 and read as one and 234 thousandths |

## Left out

- File modes, ownership and link checks, journal and write-ahead sidecars, `flock` with its wait loop: operating-system detail.
- SQLCipher, integrity pragmas, row hashing, SHA-256 and the Keychain helper: foreign code; fingerprint results are about the bytes before hashing.
- The database without encryption (`require_cipher` false), `initialize`'s schema migration text, and edits of the stored Client Secret in the settings window: no conversion takes place in them.
- The names of temporary files: the one whose name is known is a slot, the others are counted in `strays`.
- HTTP transports, request signing, URL checks and redaction of errors: a payload is any typed value within its limits, or a failure.
- `QtNetworkTransport`, the default one (`src/tatatuya/infrastructure/tuya/client.py:233-457`): it does not read through `_read_bounded` but drains the reply by signals, keeping at most one byte more than the same limits; what the network library buffers beyond that is not modelled.
- Field names with characters outside ASCII in the list of sensitive ones: such characters are dropped from the compared name; no field that the gateway reads has any.
- The access-token request that may come before the first report-log page: it is neither paced nor counted among the 150 requests.
- JSON text parsing: models start from typed values, with integers turned into Decimals where the client asks for it; the literals NaN and Infinity are one constructor, and values of a field's two names are compared structurally below the first level.
- Error texts: fetch errors are told apart as invalid, too much, rate limited, unavailable or stopped.
- Exponent limits (plus and minus 999,999) of the decimal context, and decimal digits outside ASCII in text.
- Lower-casing of units beyond A–Z and the Kelvin sign: no other character lower-cases to a letter of a unit.
- `format_decimal` with a fixed number of places, and the other formatters.
- The foreign key from readings to devices, and the text columns of a reading other than its identity: lumped into `details`.
- A stored number is the one read back from canonical text, numerically equal to the one given; the object returned by an insert has that number too.
- Row ids are unbounded, and `now` is read once per refresh.
- Product name and category of a device, the order of cached devices by name: overwritten or sorted without further rules.
- `get_devices_status` inside the client: the service passes it at most twenty ids, so its own chunking makes one request.
- Time-zone database and ISO timestamp text: instants are integers and a zone is any function.
- Qt windows, worker threads, shutdown, settings and history listing: user-interface behaviour and simple queries.
