# The certificate authority of OpenSSL 1.0.0e, and the text codecs around it

This project models, in Dafny, the logic of the `ca` and `ocsp` programs of OpenSSL 1.0.0e and of the parsers and
encoders beside them, and proves what they keep. Code that works by changing things in place is written as classes,
arrays and loops and proved against a function or predicate; that function is then proved to mean what it should.

## The parts

- **The database.** A row is valid (`V`), expired (`E`) or revoked (`R`). Issuing appends a row; expiry and revocation
  edit rows in place. Two hash indexes, by serial and, when subjects must be unique, by the name of `V` rows, are never
  told of an edit. `CaMachine` is the database without indexes, every lookup a scan; `CaDatabase` is the class with row
  list and indexes, and each of its operations is proved to do what the machine does. `CaRuns` adds the load check and
  the text form and proves what holds over every run of issuing, revoking, ageing, saving and loading. `TxtDb` is the
  text form, read through the growing buffer of `TextLines`, `Hex` the serials, `RevInfo` the revocation column,
  `ExpiryTime` the comparison of dates, and `Ocsp` the responder that reads the same database.
- **The commit.** `FileSystem` is a disk of named files on which any operation may be refused, with a record of every
  state it goes through. `IssuingRun` is the loop that signs and numbers. `CaText` says what a saved database can be
  read as, `CaFiles` how new files are put in place, and `CaCommands` is the whole program: it loads the index file,
  carries out any list of parts - marking expired rows, issuing, revoking - on that one database, saves it as text and
  renames the new files. A command that succeeds has carried out its parts, and one that could is stopped only by a
  refused operation. In no state of any sequence of such commands has the live index lost a row or set one back, so that
  a revocation on disk is final (`Ocsp.RevokeAndGoOn`); and its serials are below the next one, except those of foreign
  certificates, which were neither in the database nor below the next serial when they were revoked.
- **The loops in `do_body` and `copy_extensions`.** `Policy` and `Extensions`: searches by `goto` and do-while, proved
  to be filters.
- **The codecs.** `ParseName` (subject names), `ChopArgs` (command lines cut in place), `Md5Crypt` (the digest
  transcript and the radix-64 output), `SetHex` (keys and initialisation vectors), `CStrings` (C strings in buffers).
- **The J-PAKE exchange.** `Jpake`: client and server as two scripts over two buffered byte streams, under every
  interleaving.

## Where the code falls short of what one would expect of it

- A field of the database that ends in a backslash does not survive the text form (`TxtDb.RoundTrip` says exactly which
  rows do). No row that was read can be one of these, and a name that ends in a backslash is in the last column.
- `do_updatedb` reads an expiry date with a four-digit year, which section 4.1.2.5.1 of RFC 5280 requires from 2050 on
  and `-enddate` accepts for any year, as if the century were the year. `ExpiryTime.GeneralizedExpiryIff` says exactly
  when the answer is right: in this century, unless the clock lies between the date and its misreading, and never from
  the year 5000 on. The date that stands for "no expiration" is marked on every day from 2000 to 2049.
- A revocation made when the clock no longer yields a UTCTime is stored, and refused by the next load
  (`CaRuns.OddRevocationIsNotReloaded`); the responder, which checks no row, gives no answer about it, neither good nor
  revoked (`Ocsp.RevokedAtOnce`).
- A serial with a lower-case digit passes the load check and is never found (`Hex.LowerCaseIsNeverFound`,
  `CaRuns.LowerCaseRowIsLost`).
- The name index keeps the names of certificates marked as expired or revoked until the command ends; a name is
  documented as free again at once (`CaRuns.ExpiredNameStaysHeld`).
- The lookup by name before signing uses a name that is not filled in yet; uniqueness rests on the insert alone, and the
  lookup compares a null pointer if a name in the index has its hash (`CaDatabase.CaDb.LookUp` says exactly when). One
  valid row with an empty subject is enough (`CaRuns.EmptySubjectCrashes`).
- A comment in the database file that is longer than the read buffer is read as rows from there on
  (`TextLines.CommentIsCut`).
- `parse_name` refuses an empty value that nothing closes at the end of the subject, though it accepts empty values
  elsewhere (`ParseName.RoundTrip`).
- `chopup_args` steps over the end of its buffer when a quote is not closed (`ChopArgs.Chopup` says exactly when).
- Revoking a certificate whose serial is not below the next one puts that serial into the index, and issuing will meet
  it (`IssuingRun.RevokeKeepsBelowIff`).

## How to read the contracts

- `Below(rows, n)`: every serial is below `n`; negative serials count as below. `Allowed(rows, n, foreign)`: below `n`,
  or the text of one in `foreign`. `Consistent`: the rows that the live index reads as have grown out of `base` and, if
  the live serial is there, are allowed below it. `base` is any list of rows for which this holds at the start.
- `Inv`: serials distinct and, with unique subjects, names of `V` rows distinct and all in the name index.
- `Sound`: every row passes the load check and survives the text form. `Grown`: rows only appended, and each one only
  evolved.
- `Clean`: dates that the load check accepts and a clock that shows a UTCTime; only what says that a load succeeds asks
  for it. `OneLine`: C strings, and names without a newline, as the library writes them.
- `Loaded`: what holds of files and database between the parts of a command. `Books`: the database in memory and the
  next serial; `Carried` is what a part makes of them, and `CanCarry` when nothing but a refusal can stop it.
- `Refusals(refuses, from, to)`: how many file operations were refused. A failure with fewer refusals than a contract
  asks for does not happen.
- The library's verdicts on dates and object identifiers are the predicates in `Checks`, the table from field names to
  numbers is a function parameter, MD5 is any function that yields 16 bytes, and the present time is a parameter.

## Model

| member | source | states |
|---|---|---|
| Hex.SerialCompareIsNumeric | openssl-1.0.0e/apps/apps.c:1552-1568 | two upper-case serials, leading zeros skipped, compare equal exactly when they denote the same integer |
| Hex.SerialFoundIff | openssl-1.0.0e/apps/apps.c:1561-1568 | a stored hexadecimal serial is found under the number v exactly when it denotes v and has no lower-case digit |
| Hex.SerialTextInjective | openssl-1.0.0e/apps/ca.c:1929-1932 | two integers, negative ones included, get the same index key only if they are equal |
| Hex.SerialTextValue | openssl-1.0.0e/crypto/bn/bn_print.c:68-100 | the text of a serial is upper-case hex of even, nonzero length and denotes that serial; zero is "00" |
| Hex.StatusKeyFindsAnySpelling | openssl-1.0.0e/apps/ca.c:2521-2545 | padding to even length and upper-casing makes any spelling of a serial, in any case and with any number of leading zeros, the key of its stored text |
| Hex.LowerCaseIsNeverFound | openssl-1.0.0e/apps/apps.c:1561-1568 | a stored serial with a lower-case digit is found under no number and under no spelling of one |
| Hex.DigitsAreHexadecimal | openssl-1.0.0e/crypto/bn/bn_print.c:65-65 | each of the sixteen digits has its value, in either case |
| RevInfo.UnpackUndoesPack | openssl-1.0.0e/apps/ca.c:2690-2777 | taking apart the text built for a revocation yields the time, the reason code of section 5.3.1 of RFC 5280 for the word or kind asked for, and the argument, commas and all, if the time is a UTCTime, and is refused otherwise |
| RevInfo.WordMeans | openssl-1.0.0e/apps/ca.c:2919-2926 | unspecified 0, keyCompromise 1, CACompromise 2, affiliationChanged 3, superseded 4, cessationOfOperation 5, certificateHold 6, removeFromCRL 8, in any case, whatever follows |
| RevInfo.ExtraMeans | openssl-1.0.0e/apps/ca.c:2928-2965 | any other word is refused, except holdInstruction, keyTime and CAkeyTime, in any case, with an object identifier or a GeneralizedTime behind them: 6, 1 and 2 |
| RevInfo.RefusedIff | openssl-1.0.0e/apps/ca.c:2697-2751 | a revocation is refused for its argument exactly when that is no reason word, no object identifier or no GeneralizedTime, as its kind asks |
| RevInfo.StoredText | openssl-1.0.0e/apps/ca.c:2753-2774 | what is stored without a reason, for a hold, and for the two kinds of compromise with a time |
| RevInfo.StoredReason | openssl-1.0.0e/apps/ca.c:2753-2774 | what is stored for a reason: its word, in the spelling of the table |
| RevInfo.MakeRevocationStr | openssl-1.0.0e/apps/ca.c:2690-2777 | null exactly for a refused argument; otherwise a buffer of exactly the computed length that holds the text and its terminator |
| RevInfo.Fill | openssl-1.0.0e/apps/ca.c:2753-2774 | concatenating the parts fills the computed length to the last byte |
| RevInfo.ScanReasons | openssl-1.0.0e/apps/ca.c:2702-2709 | finds the first of the first n reason words equal up to case, or none |
| RevInfo.CutAtCommas | openssl-1.0.0e/apps/ca.c:2889-2906 | cutting a copy in place at its first two commas leaves three C strings: before the first, between them, and all the rest |
| RevInfo.UnpackRevInfo | openssl-1.0.0e/apps/ca.c:2880-2985 | the in-place parser yields the meaning of the column, or refuses it, for every string; refused, it leaves the time alone if that was good |
| RevInfo.LeftOfPacked | openssl-1.0.0e/apps/ca.c:2880-2985 | of the text built for a revocation it leaves what was meant if the time is a UTCTime, and nothing to use otherwise |
| RevInfo.ReasonsAreDistinct | openssl-1.0.0e/apps/ca.c:2664-2680 | the reason words differ from one another up to case and hold no comma |
| CStrings.CasesAgree | openssl-1.0.0e/apps/ca.c:2702-2709 | each capital equals its small letter when case is ignored |
| TextLines.LineRead | openssl-1.0.0e/crypto/txt_db/txt_db.c:107-128 | a line without NUL that is no comment is read completely, however often the buffer has to grow for it |
| TextLines.CommentIsCut | openssl-1.0.0e/crypto/txt_db/txt_db.c:109-118 | a comment is skipped as far as it fits the buffer of 512 characters; the rest of a longer one is read as a line |
| TextLines.LinesFromPlain | openssl-1.0.0e/crypto/txt_db/txt_db.c:107-128 | whatever the file, NUL included, no line gathered holds a newline or a NUL or starts with # |
| TextLines.ReadPiece | openssl-1.0.0e/crypto/txt_db/txt_db.c:109-123 | one turn of the reading loop: the buffer grows, takes one piece, and the lines still to come are those after it |
| TxtDb.RoundTrip | openssl-1.0.0e/crypto/txt_db/txt_db.c:71-301 | a written database reads back as the same rows exactly when no field holds a newline or a NUL, no field but the last ends in a backslash, and no first field starts with # |
| TxtDb.NeverMisread | openssl-1.0.0e/crypto/txt_db/txt_db.c:71-301 | whatever its fields, a written database whose last column is on one line reads back as the same rows or not at all |
| TxtDb.RowsReadAreStorable | openssl-1.0.0e/crypto/txt_db/txt_db.c:71-194 | whatever the text, every row read from it survives being written and read again |
| TxtDb.TrailingBackslashIsLost | openssl-1.0.0e/crypto/txt_db/txt_db.c:273-297 | a field ending in a backslash swallows the separator after it: this row does not come back |
| TxtDb.AppendEscaped | openssl-1.0.0e/crypto/txt_db/txt_db.c:281-288 | the copying loop puts a backslash before each tab of a field |
| TxtDb.WriteRow | openssl-1.0.0e/crypto/txt_db/txt_db.c:278-291 | the row's fields, each followed by a tab, the last tab overwritten by a newline, are the tab-joined line |
| TxtDb.Write | openssl-1.0.0e/crypto/txt_db/txt_db.c:255-301 | the text written is the lines of the rows in order |
| TxtDb.ParseLine | openssl-1.0.0e/crypto/txt_db/txt_db.c:129-164 | cutting one line accepts exactly the lines with n fields, or n and one empty one after a last tab |
| TxtDb.WidthsAccepted | openssl-1.0.0e/crypto/txt_db/txt_db.c:129-164 | a line of m fields is accepted exactly if m is n, or n + 1 with the last one empty |
| TxtDb.TabIsEscaped | openssl-1.0.0e/crypto/txt_db/txt_db.c:281-288 | a field is written as it is, with a backslash put before each tab |
| TxtDb.Read | openssl-1.0.0e/crypto/txt_db/txt_db.c:71-194 | on any file the loop yields the rows of its lines, or refuses the whole file for one bad line |
| ExpiryTime.UtcExpiryIsChronological | openssl-1.0.0e/apps/ca.c:2610-2650 | on UTCTimes the two-digit pivot and string comparison decide exactly whether expiry is at or before now in absolute time (section 4.1.2.5.1 of RFC 5280) |
| ExpiryTime.GeneralizedExpiryIff | openssl-1.0.0e/apps/ca.c:2621-2650 | for every date with a four-digit year, exactly when the test agrees with absolute time |
| ExpiryTime.GeneralizedCounts | openssl-1.0.0e/apps/ca.c:2621-2650 | what the test compares such a date as: the century stands in for the year |
| ExpiryTime.MarkedTooEarly | openssl-1.0.0e/apps/ca.c:2621-2650 | a certificate that expires in 2030 is marked in 2026 if its date is a GeneralizedTime |
| ExpiryTime.MarkedTooLate | openssl-1.0.0e/apps/ca.c:2621-2650 | one that expired in 2010 is not marked in 2015 |
| ExpiryTime.ShortExpiryIff | openssl-1.0.0e/apps/ca.c:2621-2650 | a UTCTime without seconds is judged rightly exactly if the clock does not show the minute it names |
| ExpiryTime.NoExpirationDateIsMarked | openssl-1.0.0e/apps/ca.c:2621-2650 | the date 99991231235959Z is marked as expired by every clock from 2000 to 2049 |
| ExpiryTime.ExpiryIsMonotone | openssl-1.0.0e/apps/ca.c:2621-2650 | a UTCTime expired at one time is expired at every later time |
| ExpiryTime.YearsTurnOver | openssl-1.0.0e/apps/ca.c:2610-2617 | two-digit year 49 is 2049 and 50 is 1950 |
| CaMachine.EvolutionKeepsInv | openssl-1.0.0e/apps/ca.c:2484-2492 | editing rows so that identities stay and kinds only move away from V keeps serials distinct, names of V rows distinct and all held |
| CaMachine.InsertKeepsInv | openssl-1.0.0e/crypto/txt_db/txt_db.c:303-343 | an insert that is accepted keeps the invariant and leaves the earlier rows alone |
| CaMachine.RevokeKeepsInv | openssl-1.0.0e/apps/ca.c:2386-2502 | revoking, with or without adding the certificate first, keeps the invariant and only evolves rows |
| CaMachine.RevokeMarks | openssl-1.0.0e/apps/ca.c:2413-2493 | after a revocation that succeeds, the serial leads to an R row whose date column is the text asked for |
| CaMachine.RevokeAcceptedIff | openssl-1.0.0e/apps/ca.c:2418-2493 | a revocation is accepted exactly when its argument fits and either the row with the serial has the certificate's name and is not revoked, or there is none and the name is not held |
| CaMachine.RevokeLeavesOthers | openssl-1.0.0e/apps/ca.c:2484-2493 | it changes no row of another serial, and adds one exactly if the serial was not known |
| CaMachine.UpdateLeavesRevocable | openssl-1.0.0e/apps/ca.c:2469-2493 | marking expired rows first makes no difference to whether it is accepted |
| CaMachine.SecondRevocationIsRefused | openssl-1.0.0e/apps/ca.c:2476-2481 | a certificate that has been revoked cannot be revoked again |
| CaMachine.UpdateKeepsInv | openssl-1.0.0e/apps/ca.c:2592-2662 | marking expired rows keeps the invariant and only evolves rows |
| CaMachine.UpdateIsChronological | openssl-1.0.0e/apps/ca.c:2618-2653 | on UTCTime rows exactly the V rows with expiry at or before now become E; all else is unchanged |
| CaMachine.UpdateTwice | openssl-1.0.0e/apps/ca.c:2592-2662 | updating at t1 and again at t2, not earlier, is updating at t2 |
| CaMachine.GrownTransitive | openssl-1.0.0e/apps/ca.c:2386-2502 | evolution composes: rows stay in place, keep serial and name, and an R row never changes again |
| CaDatabase.CaDb.CreateIndex | openssl-1.0.0e/crypto/txt_db/txt_db.c:217-253 | succeeds exactly when no two qualifying rows clash, and then indexes exactly those; on failure nothing changes |
| CaDatabase.CaDb.IndexIndex | openssl-1.0.0e/apps/apps.c:1873-1895 | succeeds exactly when serials are distinct and, with unique subjects, the names of V rows are; it establishes the invariant |
| CaDatabase.CaDb.GetByIndex | openssl-1.0.0e/crypto/txt_db/txt_db.c:196-215 | by serial, what a linear scan finds; by name, a hit is a row of that name, and a miss means that no V row has it |
| CaDatabase.CaDb.SerialLookupIsScan | openssl-1.0.0e/apps/apps.c:1552-1568 | the serial index answers what a linear scan of the rows answers |
| CaDatabase.CaDb.Append | openssl-1.0.0e/crypto/txt_db/txt_db.c:324-340 | the row is appended and entered in every index it qualifies for, which keeps both indexes sound and complete |
| CaDatabase.CaDb.Insert | openssl-1.0.0e/crypto/txt_db/txt_db.c:303-343 | refuses exactly a clash with an indexed row, stale entries included, when the new row qualifies; equals the scan-based insert |
| CaDatabase.CaDb.LookUp | openssl-1.0.0e/apps/ca.c:1939-1990 | what is asked before signing: the lookup by a name not yet filled in ends the program exactly if a name in the index has the hash of a null pointer, and otherwise finds nothing; then a serial that is known is refused |
| CaDatabase.CaDb.Issue | openssl-1.0.0e/apps/ca.c:1929-2195 | after these lookups the insert alone decides, as in the index-free machine |
| CaDatabase.CaDb.RevokeRow | openssl-1.0.0e/apps/ca.c:2469-2494 | refuses another name, an R row and a bad argument; otherwise edits that row in place, and the untouched indexes stay right |
| CaDatabase.CaDb.Revoke | openssl-1.0.0e/apps/ca.c:2386-2502 | does what the index-free machine does, including its recursion after adding an unknown certificate |
| CaDatabase.CaDb.MarkExpired | openssl-1.0.0e/apps/ca.c:2618-2653 | the loop ages every row and counts those it changed |
| CaDatabase.CaDb.UpdateDb | openssl-1.0.0e/apps/ca.c:2592-2662 | ages the rows behind the indexes, which stay sound and complete, and returns the number changed |
| CaDatabase.CaDb.CertificateStatus | openssl-1.0.0e/apps/ca.c:2504-2590 | any spelling of a number yields the kind of the row that a scan for the number finds; other text, of the row under its padded upper-case form |
| CaDatabase.CaDb.LookupSerial | openssl-1.0.0e/apps/ocsp.c:1158-1175 | the row a scan for the serial finds, or none |
| CaDatabase.EditKeepsIndex | openssl-1.0.0e/apps/ca.c:2484-2492 | an index that is not told of edits still finds every row that qualifies after them, and never a wrong one |
| CaRuns.CheckSerial | openssl-1.0.0e/apps/ca.c:903-926 | accepts exactly an optional minus and an even, nonzero number of hex digits |
| CaRuns.CheckRows | openssl-1.0.0e/apps/ca.c:884-928 | accepts exactly the databases every row of which passes |
| CaRuns.ColumnsAreJudged | openssl-1.0.0e/apps/ca.c:884-902 | in a row that passes, the date can be any UTCTime or GeneralizedTime and nothing else, the revocation anything that can be unpacked if the row is R and nothing if it is not |
| CaRuns.SerialIsJudged | openssl-1.0.0e/apps/ca.c:903-926 | a serial of no digit, an odd number of them or another character fails; with or without a minus, in either case, all others pass |
| CaRuns.Load | openssl-1.0.0e/apps/ca.c:881-944 | a database comes out exactly when the text reads, every row passes and both indexes can be built; it holds those rows |
| CaRuns.LoadedIsSound | openssl-1.0.0e/apps/ca.c:881-944 | whatever text a database was loaded from, it satisfies the invariant and can be stored |
| CaRuns.ReloadIsIdentity | openssl-1.0.0e/apps/ca.c:881-944 | saving and loading a sound database gives the same rows; the names held shrink to those of V rows |
| CaRuns.ReloadIff | openssl-1.0.0e/apps/ca.c:881-944 | a saved database with one-line columns can be loaded again exactly when every row passes the check and survives the text form |
| CaRuns.OddRevocationIsNotReloaded | openssl-1.0.0e/apps/ca.c:2690-2777 | after a revocation at a time that is no UTCTime the next load fails |
| CaRuns.RevocationPasses | openssl-1.0.0e/apps/ca.c:884-897 | the text of a revocation passes the load check and can be stored |
| CaRuns.StepStays | openssl-1.0.0e/apps/ca.c:1929-2195 | each step that gets through - issue, revoke, update, reload - keeps the invariant and only appends and evolves rows, whatever dates, arguments and times it is given |
| CaRuns.StepKeeps | openssl-1.0.0e/apps/ca.c:1929-2195 | each clean step keeps the invariant and soundness; a reload does not fail |
| CaRuns.EveryRun | openssl-1.0.0e/apps/ca.c:881-975 | over every run that gets through, of C strings with one-line names and any dates, arguments and times: serials stay distinct, unique names of V rows stay distinct and all indexed, rows are only appended and only evolve |
| CaRuns.CleanRunGetsThrough | openssl-1.0.0e/apps/ca.c:881-944 | a run of clean events from a sound database gets through: no reload fails |
| CaRuns.ValidUntilEnded | openssl-1.0.0e/apps/ca.c:2476-2653 | over every run that gets through, a valid row stays valid exactly until an event revokes it or marks it as expired |
| CaRuns.HoldsOverRun | openssl-1.0.0e/apps/apps.c:1570-1577 | however long a command has been issuing, revoking and ageing, the name index holds the names valid when it loaded and all names added since |
| CaRuns.IssueAcceptedIff | openssl-1.0.0e/apps/ca.c:1939-1965 | at any point of a command a certificate is accepted exactly when no row has its serial and, with unique subjects, its name belonged to no valid row when the command loaded and to no row added since |
| CaRuns.ExpiredNameStaysHeld | openssl-1.0.0e/apps/ca.c:944-975 | reissuing the name of a certificate marked expired by the same command is refused, and accepted by the next command |
| CaRuns.LowerCaseRowIsLost | openssl-1.0.0e/apps/ca.c:903-926 | a row with serial 0a passes the load check and is found under no number and no spelling |
| CaRuns.EmptySubjectCrashes | openssl-1.0.0e/crypto/lhash/lhash.c:443-451 | a database with one valid row with an empty subject loads, and holds a name with the hash of a null pointer, so that the next request asked about ends the program |
| Ocsp.Answer | openssl-1.0.0e/apps/ocsp.c:1092-1141 | one id is answered UNKNOWN for another CA or no row, GOOD for V, REVOKED for R with what unpacking its column left, and not at all otherwise or if the time in the column is no UTCTime |
| Ocsp.MakeResponse | openssl-1.0.0e/apps/ocsp.c:1053-1156 | malformed exactly for no ids, internal error exactly for an unknown digest, otherwise the list of answers in request order |
| Ocsp.EveryAnswer | openssl-1.0.0e/apps/ocsp.c:1078-1141 | an answer is in the response exactly when its id was asked and its status is the one prescribed (section 2.2 of RFC 2560) |
| Ocsp.WhoIsAnswered | openssl-1.0.0e/apps/ocsp.c:1099-1122 | GOOD is answered exactly for this CA and a serial whose row is V, UNKNOWN exactly for another CA or a serial without a row, and nothing for a row that is E |
| Ocsp.WhoIsRevoked | openssl-1.0.0e/apps/ocsp.c:1123-1141 | REVOKED is answered exactly for this CA and a serial whose row is R and has a good time, with what its column says |
| Ocsp.AnswersJoin | openssl-1.0.0e/apps/ocsp.c:1078-1141 | the answers follow the order of the request |
| Ocsp.GoodUntilEnded | openssl-1.0.0e/apps/ocsp.c:1116-1120 | a certificate just issued is answered GOOD by every later database of every run that gets through exactly until an event revokes it or marks it as expired |
| Ocsp.RevokedAtOnce | openssl-1.0.0e/apps/ca.c:2413-2493 | right after a revocation that succeeds, the serial is answered REVOKED with the time, reason and argument asked for, or not at all if the time is no UTCTime |
| Ocsp.RevokedForEver | openssl-1.0.0e/apps/ocsp.c:1113-1139 | a revoked serial stays revoked and is answered in the same words by the database at the end of every run that gets through, whatever dates, arguments and times are in it |
| Ocsp.RevocationIsPermanent | openssl-1.0.0e/apps/ocsp.c:1078-1141 | after a revocation that succeeds, every later database of every run that gets through answers every question about that serial of this CA with REVOKED and what was asked for, and with nothing else (with nothing at all if the time was no UTCTime); a clean run gets through |
| Ocsp.ConsistentTells | openssl-1.0.0e/apps/ocsp.c:755-762 | in every state of the disk that keeps the revoked row, whatever rows the responder reads from the live index, every response to that serial is the one due to the revocation |
| Ocsp.RevokeAndGoOn | openssl-1.0.0e/apps/ca.c:1494-1519 | a revocation and then any number of commands, any operation refused and stopped anywhere: in every state of the disk from the success on, every response to that serial is the one due to the revocation |
| FileSystem.RotateFile | openssl-1.0.0e/apps/apps.c:1736-1760 | through every state of the two renames and the one that takes back: the live file is absent, old or new, and its first contents are never lost; it fails only by a refusal or a missing new file |
| FileSystem.RotateSerial | openssl-1.0.0e/apps/apps.c:1706-1765 | the same for the serial file; a failure leaves it as it was unless a second rename is refused |
| FileSystem.TakeBack | openssl-1.0.0e/apps/apps.c:2041-2069 | the two renames that put the index back lose nothing, and succeed unless one is refused |
| FileSystem.RotateAttributes | openssl-1.0.0e/apps/apps.c:2039-2070 | the second half of the index rotation, with the renames that take back the first half |
| FileSystem.RotateIndex | openssl-1.0.0e/apps/apps.c:1964-2074 | on success both live files hold the new contents and the .old files the previous ones; on failure both hold the first contents unless a second rename is refused; nothing is lost in any state in between |
| IssuingRun.AskOnly | openssl-1.0.0e/apps/ca.c:1939-2140 | a request that the operator declines has gone through both lookups and may end the command there |
| IssuingRun.IssueOne | openssl-1.0.0e/apps/ca.c:1236-1252 | one request adds the row with the next serial and counts it, or nothing, or ends the command; with serials below the next one only its name, or the hash of one, can be in its way |
| IssuingRun.IssueLoop | openssl-1.0.0e/apps/ca.c:1170-1253 | the new rows are those of the signed requests with serials s0, s0+1, ...; from a database below the next serial it succeeds exactly when none failed and, with unique subjects, the names are new and different and no lookup by a missing name, for a signed or a declined request, ends it |
| IssuingRun.NextSerialIsNew | openssl-1.0.0e/apps/ca.c:1953-1965 | a serial above every serial of the database is never found in it |
| IssuingRun.NumberedBelow | openssl-1.0.0e/apps/ca.c:1182-1182 | serials below the next one before the loop are below the next one after it |
| IssuingRun.NewRowIs | openssl-1.0.0e/apps/ca.c:2148-2178 | the k-th new row is valid, not revoked, and carries date and name of the k-th signed request and the k-th serial |
| IssuingRun.SignedJoin | openssl-1.0.0e/apps/ca.c:1236-1252 | the rows follow the order of the requests |
| IssuingRun.OneRequest | openssl-1.0.0e/apps/ca.c:1236-1252 | a signed request contributes itself, any other nothing |
| IssuingRun.RevokeKeepsBelowIff | openssl-1.0.0e/apps/ca.c:2418-2463 | revoking an unknown certificate keeps the serials below the next one exactly when its serial is below it |
| CaFiles.SaveSerial | openssl-1.0.0e/apps/apps.c:1644-1704 | only the .new file changes, and holds the serial on success; it fails only for a long name or a refusal |
| CaFiles.SaveIndex | openssl-1.0.0e/apps/apps.c:1897-1962 | only the two .new files change; an empty database is reported as a failure |
| CaFiles.FileNames | openssl-1.0.0e/apps/apps.c:1964-2000 | the six names a database uses and the three a serial file uses |
| CaFiles.LongestNames | openssl-1.0.0e/apps/apps.c:1640-1730 | all names made fit exactly if that of the serial file has at most 251 characters and that of the index at most 246 |
| CaText.SavedReadsAs | openssl-1.0.0e/apps/apps.c:1897-1962 | the text of a database with one-line names is read as that database or not at all |
| CaText.LineOfRow | openssl-1.0.0e/apps/apps.h:275-280 | the columns in order: kind, expiry date, revocation, serial, file name, subject, with tabs between them |
| CaText.LineOfNewRow | openssl-1.0.0e/apps/ca.c:2148-2178 | the line of a certificate just issued |
| CaFiles.NextSerialIsFree | openssl-1.0.0e/apps/ca.c:1953-1965 | in a consistent state without foreign serials the next serial is above every serial that the live index reads as, and is not found there |
| CaFiles.SerialRotationStays | openssl-1.0.0e/apps/ca.c:1344-1345 | in every state while the serial rotates, the live index is the old one and the live serial above its serials |
| CaFiles.IndexRotationStays | openssl-1.0.0e/apps/ca.c:1347-1347 | in every state while the index rotates, the live serial, already the new one, is above the serials of old and new index, and neither loses a row |
| CaFiles.Commit | openssl-1.0.0e/apps/ca.c:1258-1350 | every state of the disk is consistent whatever is refused; on success both live files are the new ones; it fails only by a refusal or an unwritten certificate |
| CaFiles.ReplaceIndex | openssl-1.0.0e/apps/ca.c:1513-1515 | saving and rotating the index alone leaves the serial file untouched and keeps every state consistent |
| CaCommands.Open | openssl-1.0.0e/apps/ca.c:881-944 | a command goes on exactly when the index file reads, every row passes the checks and both indexes can be built |
| CaCommands.IssuePart | openssl-1.0.0e/apps/ca.c:1165-1351 | every state consistent; on success exactly the new rows and the next serial; if acceptable requests fail with the serials in order, the operator cancelled, a certificate was not written, or a file operation was refused |
| CaCommands.UpdatePart | openssl-1.0.0e/apps/ca.c:946-975 | every state consistent; the index file becomes the text of the aged rows, or stays if nothing expired; it fails only by a refusal |
| CaCommands.RevokePart | openssl-1.0.0e/apps/ca.c:1494-1519 | of a certificate of this authority or a foreign one: every state consistent, and after a success every state to come keeps the revoked row; serials below the next one stay so exactly if its serial is known or below the next one; it fails only if the database refuses the revocation or a file operation is refused |
| CaCommands.RunPart | openssl-1.0.0e/apps/ca.c:944-1519 | any part, with any set of foreign serials that may be revoked: on success it has been carried out, in memory and in index and serial file; it fails, if it can be carried out, only by a refusal; every state consistent; with dates the load check accepts the index file then loads as the rows in memory |
| CaCommands.CarryOut | openssl-1.0.0e/apps/ca.c:944-1519 | the same for a list of parts in order, on one loaded database |
| CaCommands.RunCommand | openssl-1.0.0e/apps/ca.c:881-1519 | one load and then the parts: on success the live index is the text of the loaded rows with all parts carried out in order, and the live serial the one due; if all can be carried out it fails only by a refusal; every state consistent; after success with such dates the next command loads exactly these rows |
| CaCommands.RunCommands | openssl-1.0.0e/apps/ca.c:881-1519 | over any number of commands, each stopped anywhere: in every state no row of the base is lost or set back in the live index, and every serial that the index reads as is below the next one or one of the foreign ones revoked; if all can be carried out and nothing is refused, index and serial end up as they make them, one after the other |
| ParseName.RoundTrip | openssl-1.0.0e/apps/apps.c:2139-2211 | printed with backslashes and closed by /, or with multi-valued names by +, every list of types, values and joins parses back; with the last element left open, exactly when its value is not empty; without multi-valued names + is an ordinary character |
| ParseName.NoneJoinedWithoutMulti | openssl-1.0.0e/apps/apps.c:2199-2206 | without multi-valued names no element of any subject is joined to another |
| ParseName.BrokenIsRefused | openssl-1.0.0e/apps/apps.c:2153-2194 | a subject is refused for a last type that nothing ends or a backslash with nothing behind it, whatever comes before |
| ParseName.ElementsPrinted | openssl-1.0.0e/apps/apps.c:2149-2211 | the same from any element on, for any escaping that covers backslash, =, / and, with multi-valued names, + |
| ParseName.CollectType | openssl-1.0.0e/apps/apps.c:2151-2178 | copying a type stays behind the read position and inside the buffer, and stores exactly the unescaped type |
| ParseName.CollectValue | openssl-1.0.0e/apps/apps.c:2179-2209 | copying a value stores exactly the unescaped value and reports what ended it |
| ParseName.CollectElement | openssl-1.0.0e/apps/apps.c:2149-2211 | one turn of the loop consumes at least two characters and writes only within the buffer and the arrays, mval[ne_num+1] included |
| ParseName.Tokenize | openssl-1.0.0e/apps/apps.c:2118-2211 | for every subject string all writes are in bounds, and the arrays and buffer describe exactly the elements, or the subject is refused |
| ParseName.Collect | openssl-1.0.0e/apps/apps.c:2213-2232 | the second loop takes the elements whose type is known and whose value is not empty, with their joins, and gives up exactly if the library refuses one of these |
| ParseName.TakenOneByOne | openssl-1.0.0e/apps/apps.c:2213-2232 | elements of known types with values become entries one by one, joined ones joined |
| ParseName.SkippedLeavesNoTrace | openssl-1.0.0e/apps/apps.c:2215-2226 | an element of an unknown type or without a value leaves no trace |
| ParseName.AskedAboutEntries | openssl-1.0.0e/apps/apps.c:2228-2232 | the library is asked about exactly the entries the name gets |
| ParseName.ParseName | openssl-1.0.0e/apps/apps.c:2118-2248 | the whole function yields the entries of the elements the subject denotes, or nothing if it denotes none or the library refuses one |
| ChopArgs.CutWritten | openssl-1.0.0e/apps/apps.c:380-449 | quoting a list of arguments and cutting the line gives the list back |
| ChopArgs.TokensAreWritable | openssl-1.0.0e/apps/apps.c:407-443 | every argument that can come out lacks one of the two quotes or can stand bare |
| ChopArgs.WritableIff | openssl-1.0.0e/apps/apps.c:407-443 | a list of arguments is the cutting of some line exactly when each of them is writable |
| ChopArgs.SeparatorIff | openssl-1.0.0e/apps/apps.c:402-403 | between two words exactly a space, a tab and a newline separate |
| ChopArgs.QuoteIff | openssl-1.0.0e/apps/apps.c:426-436 | exactly the two quotes keep a space |
| ChopArgs.Args.AddSlot | openssl-1.0.0e/apps/apps.c:407-422 | storing a pointer, growing by 20 when full, keeps the earlier slots and leaves all later ones NULL |
| ChopArgs.Args.Reset | openssl-1.0.0e/apps/apps.c:388-395 | the first call allocates 20 slots; all slots become NULL |
| ChopArgs.CutAll | openssl-1.0.0e/apps/apps.c:397-445 | the in-place loop refines the tokens of the line, keeping every token ended so far |
| ChopArgs.Chopup | openssl-1.0.0e/apps/apps.c:380-449 | steps over the terminator exactly when an opening quote is not closed; otherwise the C string at argv[k] after all NUL writes is the k-th token, and the slots from argc to count are NULL |
| Policy.GetIndex | openssl-1.0.0e/crypto/x509/x509name.c:108-127 | the first entry of the field after a position, or -1 if there is none |
| Policy.SearchCa | openssl-1.0.0e/apps/ca.c:1849-1871 | the goto search finds an equal CA entry exactly when there is one, and tells a lacking field from a mismatch |
| Policy.OneField | openssl-1.0.0e/apps/ca.c:1806-1890 | the loop over one field ends, succeeds exactly when the requirement holds, and appends all request entries of the field, although j also serves the CA search |
| Policy.Check | openssl-1.0.0e/apps/ca.c:1796-1891 | succeeds exactly when every listed field is known and satisfied, with the subject the request entries in policy order; otherwise names the first field that fails and why |
| Policy.SubjectMembers | openssl-1.0.0e/apps/ca.c:1796-1891 | the subject holds exactly the request entries whose field the policy lists |
| Policy.SubjectJoin | openssl-1.0.0e/apps/ca.c:1796-1891 | the subject follows the order of the policy |
| Policy.SubjectOfOne | openssl-1.0.0e/apps/ca.c:1875-1888 | each line contributes all the request's entries of its field, in their order |
| Policy.RequirementLaws | openssl-1.0.0e/apps/ca.c:1823-1873 | optional asks nothing, supplied an entry, match one that the CA has too, and any other word is refused |
| Policy.DeleteOne | openssl-1.0.0e/apps/ca.c:1920-1926 | deleting one entry of a field changes nothing about what remains without that field |
| Policy.RemoveField | openssl-1.0.0e/apps/ca.c:1907-1927 | the deletion loop leaves exactly the other entries, in order |
| Extensions.CopyStep | openssl-1.0.0e/apps/apps.c:1329-1353 | what one more request extension changes under each copy type |
| Extensions.CopyNothing | openssl-1.0.0e/apps/apps.c:1325-1330 | without request extensions, or without the order to copy, nothing changes |
| Extensions.CopyAllIsIdempotent | openssl-1.0.0e/apps/apps.c:1317-1355 | copying everything twice is copying it once |
| Extensions.Certificate.DeleteAll | openssl-1.0.0e/apps/apps.c:1337-1347 | the do-while loop ends and leaves exactly the extensions of other types |
| Extensions.Certificate.CopyFrom | openssl-1.0.0e/apps/apps.c:1317-1355 | copy keeps all and appends the first request extension of each absent type; copyall keeps the types not requested and appends the last of each requested one |
| Md5Crypt.FeedCyclic | openssl-1.0.0e/apps/passwd.c:347-349 | the 16-byte loop and its rest feed as many bytes as the password has, byte k being digest byte k mod 16 |
| Md5Crypt.LengthBitsMeaning | openssl-1.0.0e/apps/passwd.c:351-356 | the bytes fed are one for each binary digit of the length, low digit first, 0 for a set bit |
| Md5Crypt.FeedBits | openssl-1.0.0e/apps/passwd.c:351-356 | the shift loop feeds those bytes |
| Md5Crypt.FirstDigest | openssl-1.0.0e/apps/passwd.c:332-357 | the first digest is of exactly the prescribed transcript |
| Md5Crypt.TranscriptOfTwo | openssl-1.0.0e/apps/passwd.c:332-357 | the transcript for a password of two bytes, spelled out |
| Md5Crypt.Stretch | openssl-1.0.0e/apps/passwd.c:359-371 | a thousand rounds, each over the inputs its number selects |
| Md5Crypt.RoundTable | openssl-1.0.0e/apps/passwd.c:359-371 | what each of the eight kinds of rounds is fed |
| Md5Crypt.SourceIsPermutation | openssl-1.0.0e/apps/passwd.c:381-385 | steps of 6 modulo 17 and the two fixed slots are a permutation of the sixteen bytes, with this inverse |
| Md5Crypt.OrderIs | openssl-1.0.0e/apps/passwd.c:376-385 | the order of the sixteen bytes, spelled out |
| Md5Crypt.TableIs | openssl-1.0.0e/apps/passwd.c:30-39 | the table holds the 64 digits in their order |
| Md5Crypt.AlphabetIs | openssl-1.0.0e/apps/passwd.c:30-39 | the 64 characters, spelled out |
| Md5Crypt.Permute | openssl-1.0.0e/apps/passwd.c:376-385 | the loop writes the bytes in that order |
| Md5Crypt.WriteGroups | openssl-1.0.0e/apps/passwd.c:395-403 | the loop writes four radix-64 digits for each three bytes, in bounds |
| Md5Crypt.Decode3 | openssl-1.0.0e/apps/passwd.c:397-402 | four digits determine their three bytes |
| Md5Crypt.GroupIsNumber | openssl-1.0.0e/apps/passwd.c:397-402 | four digits, the lowest first, are the number in base 64 whose bytes the three are, the highest first |
| Md5Crypt.LastIsNumber | openssl-1.0.0e/apps/passwd.c:404-407 | the last two digits are the number of the sixteenth byte |
| Md5Crypt.DecodeUndoesEncode | openssl-1.0.0e/apps/passwd.c:381-407 | an explicit decoder recovers the digest from the 22 characters |
| Md5Crypt.TextSaysAll | openssl-1.0.0e/apps/passwd.c:395-413 | dollars, magic and salt stand where they should, and the rest recovers the digest |
| Md5Crypt.Crypt | openssl-1.0.0e/apps/passwd.c:310-413 | the static buffer, with every write in bounds, ends up with $magic$salt$ and the encoding of the prescribed digest, terminated |
| SetHex.PrintHex | openssl-1.0.0e/apps/enc.c:617-638 | the printing loop writes two upper-case digits a byte |
| SetHex.ReadHex | openssl-1.0.0e/apps/enc.c:690-724 | accepts exactly the hex strings that fit; digits fill from the left, the rest is zero, and the text read is wiped |
| SetHex.PrintedComesBack | openssl-1.0.0e/apps/enc.c:690-724 | every printed key is accepted for a buffer of its size or larger and comes back, followed by zeros |
| SetHex.TextIsBigEndian | openssl-1.0.0e/apps/enc.c:617-638 | the printed text, read as a number in base 16, is the number with these bytes, the first one highest |
| Jpake.GetsLineIff | openssl-1.0.0e/crypto/bio/bf_buff.c:455-505 | the buffered read of a line returns it whole exactly when it and a terminator fit the buffer |
| Jpake.Sizes | openssl-1.0.0e/apps/apps.c:2501-2550 | a received line may have 10239 characters, and twenty bytes are waited for as a hash |
| Jpake.ReceiveTakesMessage | openssl-1.0.0e/apps/apps.c:2556-2618 | a receive that is possible takes exactly the message due; if the message is flushed, the receive is possible |
| Jpake.PartyKeeps | openssl-1.0.0e/apps/apps.c:2636-2694 | an operation of one side keeps what it has received a prefix of what the peer sends, and both streams in step |
| Jpake.EveryRunKeeps | openssl-1.0.0e/apps/apps.c:2501-2694 | in every state of every interleaving each side has received exactly the first messages of the other, and no assertion about a read fails |
| Jpake.StepsWaitForPeer | openssl-1.0.0e/apps/apps.c:2648-2685 | in every state of every run a side has written a byte of a step only after it has received all of the step that this one answers |
| Jpake.NothingHeldBack | openssl-1.0.0e/apps/apps.c:2501-2618 | a side that waits has flushed all it has written |
| Jpake.SomeoneCanStep | openssl-1.0.0e/apps/apps.c:2636-2694 | at any two positions of the scripts that are not both the end, one side is not waiting in vain |
| Jpake.NoDeadlock | openssl-1.0.0e/apps/apps.c:2636-2694 | every such state that is not the end has a next step |
| Jpake.EveryStepProgresses | openssl-1.0.0e/apps/apps.c:2636-2694 | every step advances a side or delivers bytes, so every run ends |
| Jpake.AtTheEnd | openssl-1.0.0e/apps/apps.c:2636-2694 | when both are done each has received exactly what the other sent, and both streams are empty |

## Left out

- Cryptography and ASN.1 encoding: signing, digests, the J-PAKE algebra and its failed verifications, which end the program.
- Printing, prompts, option and configuration parsing, sockets, and the contents of certificate files.
- Allocation failure and freeing.
- Generating certificate revocation lists and rotating their number file: `rotate_serial` again, on another file.
- Certificates and the operator's confirmation in the issuing part are two booleans of `CaCommands.IssuePart`.
- A write that fails after its file has been opened: the code does not look at it in `save_serial`, and the model's writes are complete.
- A rotation with a missing live file and a stale `.old` file is modelled, but nothing is promised about restoring it.
- A rename reports ENOENT only for a missing source, and ENOTDIR never.
- A serial file created at random, and the `.attr` file, whose one setting is the parameter `unique`.
- CaDatabase.CaDb.RevokeRow: a row whose kind is empty, whose one-byte buffer the original overruns when it writes R.
- CaDatabase.CaDb.LookUp: the hash function of the name index is a parameter, and what a comparison with a null pointer does is the end of the program.
- A missing revocation date is the empty string; the original has both a null pointer and the empty string.
- Policy.Check: the option that keeps the request's own order of fields, the checks on string types, and values compared other than as text.
- ParseName.ParseName: which values the library takes is a parameter, and the numbering of relative names is kept only as which elements are joined.
- ExpiryTime.UtcExpiryIsChronological: UTCTimes with a zone other than Z; those without seconds are in `ExpiryTime.ShortExpiryIff`.
- ChopArgs.Chopup: what happens after the terminator has been stepped over.
- Ocsp.MakeResponse: times, nonce and signature of the response.
- Md5Crypt.Crypt: bytes and bit operations are written as arithmetic on numbers below 256, and the calling of a digest context as concatenation.
- Jpake.EveryRunKeeps: connections that break or end early.
