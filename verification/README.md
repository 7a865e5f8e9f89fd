# Certificate database, OCSP, password hashing and option parsing of the openssl commands

This project models, in Dafny, the parts of the `openssl` command-line program that hold state
machines, codecs and parsers of their own, and the in-memory connection pipe of the benchmark
beside it.

- **The certificate authority database.** `CaState` is the state machine of issuing, revoking,
  importing and expiring; `CaProperties` is what holds over every step and every run.
  `CaDatabase` is the object with its two indices, updated in place and proved against the state
  machine. `SerialHex`, `AsnTime`, `RevocationInfo` and `TextDb` are the codecs of its columns
  and of its file. `CaPolicy` and `CaRequest` are the policy loop and the handling of one
  request, `CaBatch` the serial numbers of a batch, `CaCommit` the files of a commit.
- **Readers of the database.** `CaQueries` holds the status query and the CRL, `OcspResponder`
  the OCSP responder and its agreement with the CRL; the statuses are those of section 2.2 of
  RFC 6960, the reasons those of sections 5.3.1 and 5.1.2.6 of RFC 5280.
- **Password hashing.** `CryptHash` is what md5crypt and SHA-crypt feed to the hash (steps 1 to
  21 of "Unix crypt using SHA-256 and SHA-512"), `CryptTail` the permuted base-64 tail,
  `CryptText` header, salt and buffer sizes.
- **`ConnPipe`**: the buffer between two TLS connections, as a FIFO.
- **`CmsSigners`**: the -signer, -inkey and -keyopt accumulator of the cms command.
- **`CmpSections`, `CmpGeninfo`**: the backwards tokenizer and the in-place parser of the CMP client.
- **`EncFraming`**: salt header, copy loop and hex arguments of the enc command.
- **`Common`, `CNumbers`, `CString`**: decimal numbers, strtol and strtoul, and zero-terminated strings.

`dafny verify dfyconfig.toml` checks all files together.

## How the code is modelled

- Library code enters as a parameter: hashes, ciphers and key derivation, object and name
  lookups, reading of a date, the operator's answer, the random bytes, the clock, the success of a
  write or a rename, the number of bytes a read delivers.
- C integers are unbounded here; where the width matters (strtol, strtoul, the 64-bit long of
  -geninfo, buffers) the limit is written out. Shifts and masks are divisions and remainders by
  powers of two, and the bitwise union of disjoint ranges is a sum.
- The type column of a row is compared by its first character, as the code does. A null revocation
  column is the empty text.
- A signature that fails, a declined request and an input error are outcomes of their steps.

## What turned out false

Some laws one expects do not hold of the code. Each is stated with its exact condition.

- The revocation column is written with whatever four-digit or two-digit year the time has, and
  read back as UTCTime. It is readable exactly for the years 1950 to 2049
  (`RevocationInfo.RevocationRoundTrip`), so a database stays loadable exactly over runs that
  record revocations in those years and add readable expiry dates (`CaProperties.RunLoads`).
- The load checks admit lower-case serials, the serial index compares text, and the responder asks
  in upper case. A row is found by its number exactly when its serial is canonical
  (`OcspResponder.FoundIffCanonical`), and CRL and responder agree on a serial exactly under the
  condition of `OcspResponder.AgreesIffRepresented`; `OcspResponder.LowerCaseDisagrees` is a
  database where they do not.
- A subject freed by revocation or expiry is still refused until the database is loaded again. A
  run refuses exactly the names of the valid rows if and only if no step revoked or expired
  a row of the index (`CaProperties.RefusalsAreValidNames`, name by name in `CaProperties.RefusedNames`);
  `CaProperties.ExpiredNameStaysTaken` is an instance.
- A commit that reports success need not have saved anything whole: the results of writing the
  counter and the attributes are ignored, and so is that of closing the index. Each live file is
  new exactly when its own writing was complete (`CaCommit.Disk.Commit`); the old counter and
  index are then still beside it. `CaCommit.CutCounterGoesLive` is an instance.
- The counter need not be above every serial: importing a certificate may add one at or above it,
  exactly as `CaBatch.RevokeStaysBelow` says. Issued serials stay below it on every database
  (`CaBatch.BatchStaysBelow`, `CaCommit.IssueCommand`).
- The index file is read back unchanged exactly under the condition of `TextDb.FileRoundTrip`.
- Moving a connection keeps the order of bytes exactly when nothing was consumed
  (`ConnPipe.MoveReader`).
- A list of sections that ends in a separator has one more, empty, item
  (`CmpSections.VisitsAllItems`).
- A -geninfo number outside the range of long is silently replaced by the nearest one
  (`CmpGeninfo.RoundTripIffInRange`).
- A -keyopt under -encrypt is numbered by recipients, so that a later -sign run files it with
  another signer unless the two numbers agree. Every signer finds its own options exactly when
  they always agree (`CmsSigners.KeyoptsReachTheirGroup`); `CmsSigners.KeyoptUnderEncryptIsLost`
  is an instance.

## Model

| member | source | states |
|---|---|---|
| CaState.StepInv | openssl/apps/ca.c:1944-1969 | every issue, revoke, import or expire step keeps the invariant: serials pairwise distinct, the name index covers at least the valid rows and its names differ; and rows only evolve (identity kept, V to E or anything but R to R) |
| CaState.RunInv | openssl/apps/ca.c:2134-2238 | the same over every sequence of steps: no row disappears, serial, subject, expiry and file never change, no row leaves R |
| CaState.RunSafety | openssl/apps/ca.c:1832-1865 | from any database that could be indexed, after any sequence of steps serials are distinct and, with unique_subject on, no two valid rows share a subject, although revocation and expiry never touch the name index |
| CaState.RevokeInv | openssl/apps/ca.c:2167-2231 | revocation, with or without the insertion of an absent certificate, keeps the invariant and only evolves rows |
| CaState.ExpireInv | openssl/apps/ca.c:2342-2344 | marking rows expired keeps the invariant although the name index is not updated |
| CaProperties.IssueOutcome | openssl/apps/ca.c:1823-1969 | a request is certified exactly when its serial and (if required) subject are free and the operator signs, declined exactly when free and declined; certifying adds one valid row with the certificate's number, date and subject (the serial text for an empty subject); any other outcome changes nothing |
| CaProperties.RunNames | openssl/apps/ca.c:2192-2231 | over every run with unique_subject on the name index holds exactly the rows that were valid when it was built or inserted since |
| CaProperties.RefusedNames | openssl/apps/ca.c:1847-1856 | after every run a name is refused if and only if a valid row has it or a row that entered the index as valid and has been revoked or expired since; never for both reasons |
| CaProperties.NamesFreedByLoading | openssl/apps/lib/apps.c:1743-1766 | a name is refused by the run and free once its rows are loaded again if and only if such a stale row has it |
| CaProperties.StepQuiet | openssl/apps/ca.c:2192-2231 | one step of a run without stale rows makes one stale exactly when, seen before the step, -updatedb meets a due row before an unreadable date, or a revocation with acceptable arguments meets a valid row of this name or may add the certificate |
| CaProperties.RunQuiet | openssl/apps/ca.c:2342-2344 | over every run no row is stale if and only if every step was quiet in this sense when it was taken |
| CaProperties.RefusalsAreValidNames | openssl/apps/ca.c:1847-1856 | a run refuses exactly the names of the valid rows if and only if every step was quiet when it was taken |
| CaProperties.ExpiredNameStaysTaken | openssl/apps/ca.c:2342-2344 | an instance: once its only row has been expired a run refuses that subject, and the same request is certified after loading again |
| CaProperties.RevokeOutcome | openssl/apps/ca.c:2167-2227 | revoking or importing succeeds exactly when the serial is new and its subject may be added, or belongs to an unrevoked row of the same subject that is not being imported again, and a revocation's arguments are acceptable |
| CaProperties.ImportOutcome | openssl/apps/ca.c:2187-2204 | importing as valid adds exactly the certificate's row, or nothing when refused |
| CaProperties.RevokeSucceeds | openssl/apps/ca.c:2134-2238 | after a successful revocation exactly one row has the serial, it is revoked with the computed column, a row was added only if the serial was absent, all other rows are as before |
| CaProperties.RevokeFails | openssl/apps/ca.c:2187-2218 | a failed revocation changes nothing, except that a valid row for an absent serial may have been inserted in memory, only when the revocation arguments are unacceptable |
| CaProperties.ExpireProperties | openssl/apps/ca.c:2307-2355 | do_updatedb fails exactly when a valid row has an unreadable expiry; otherwise it returns the number of rows that changed, leaves no valid row at or past its expiry, and a second call at the same time changes nothing and returns 0 |
| CaProperties.ExpireMeaning | openssl/apps/ca.c:2328-2351 | row by row, before the first V row with an unreadable expiry exactly the V rows whose expiry is at or before the clock become E and nothing else changes; the call fails exactly if there is such an unreadable row |
| CaProperties.ExpireChanges | openssl/apps/ca.c:2328-2351 | the rows that change are exactly the valid rows at or past their expiry |
| CaProperties.EmptySubjectNeverClashes | openssl/apps/ca.c:1832-1845 | a row named by its serial, because its subject is empty, clashes with no row while its serial is new and names are well formed |
| CaProperties.RunWellNamed | openssl/apps/ca.c:1832-1845 | well-formed names (a subject starting with a slash, or the row's own serial) stay so over every run |
| CaProperties.StepClean | openssl/apps/ca.c:737-772 | one step from a database that passes the load checks leaves a database that passes them, or a row no later step repairs, decided beforehand: a certificate that can be added has a readable expiry and a revocation that can be recorded is made between 1950 and 2049 |
| CaProperties.RunLoads | openssl/apps/ca.c:737-772 | over every run from a loadable database the result passes the load checks if and only if every step met that condition when it was taken |
| CaProperties.CleanEvents | openssl/apps/ca.c:737-772 | readable expiry dates and revocations between 1950 and 2049 are enough, whatever the database |
| CaProperties.SavedRunReloads | openssl/apps/ca.c:1061-1089 | after a clean run over plain fields the saved file reads back to the same rows, passes the load checks and can be indexed again |
| CaDatabase.BuildSerialIndex | openssl/crypto/txt_db/txt_db.c:147-185 | succeeds exactly when no two rows have the same serial key, and then finds every row by its key |
| CaDatabase.BuildNameIndex | openssl/crypto/txt_db/txt_db.c:147-185 | succeeds exactly when no two valid rows share a subject, and then holds exactly the valid rows |
| CaDatabase.CaDb.constructor | openssl/apps/lib/apps.c:1743-1766 | the object represents the indexed database |
| CaDatabase.CaDb.Load | openssl/apps/lib/apps.c:1743-1766 | both indices are built exactly when the keys are distinct |
| CaDatabase.CheckSerial | openssl/apps/ca.c:754-771 | accepts exactly an optional minus sign followed by an even number, at least two, of hex digits of either case |
| CaDatabase.CheckRow | openssl/apps/ca.c:738-771 | the checks on one row in the order of the code |
| CaDatabase.RowChecks | openssl/apps/ca.c:738-753 | a row passes exactly if its revocation column is readable when its type is R and empty otherwise, its expiry is readable and its serial well formed |
| CaDatabase.CheckRows | openssl/apps/ca.c:735-772 | the loop returns the first row that fails, and none exactly if all pass |
| CaDatabase.CaDb.SerialLookup | openssl/apps/lib/apps.c:1467-1477 | the serial index answers as a search through the rows would |
| CaDatabase.CaDb.NameLookup | openssl/apps/lib/apps.c:1479-1492 | the name index answers for exactly the names that are taken |
| CaDatabase.CaDb.GetBySerial | openssl/crypto/txt_db/txt_db.c:127-145 | returns the position of the row with the serial, or none |
| CaDatabase.CaDb.Insert | openssl/crypto/txt_db/txt_db.c:234-277 | refuses a key already in an index that covers the row and changes nothing then; otherwise appends the row and extends both indices |
| CaDatabase.CaDb.Issue | openssl/apps/ca.c:1823-1969 | the clash checks, the answer and the insertion take the database to the state of an issue step |
| CaDatabase.CaDb.Revoke | openssl/apps/ca.c:2134-2238 | looks up, inserts an absent certificate and calls itself at most once, then marks the row: the state of a revoke step |
| CaDatabase.CaDb.MarkRevoked | openssl/apps/ca.c:2229-2231 | changes type and revocation column of one row and nothing else, leaving both indices valid |
| CaDatabase.CaDb.MarkExpired | openssl/apps/ca.c:2328-2351 | the loop leaves the rows and the count of an expire step, whose meaning row by row is in ExpireMeaning |
| CaDatabase.CaDb.UpdateDb | openssl/apps/ca.c:2307-2355 | the state and count of an expire step |
| SerialHex.KeyIsDigits | openssl/apps/lib/apps.c:1457-1477 | for upper-case hex the key that the index hashes and compares, the text after its leading zeros, is the number's shortest hexadecimal form |
| SerialHex.KeyDetermines | openssl/apps/lib/apps.c:1457-1477 | the key keeps the number and the case of its digits |
| SerialHex.SerialTextRoundTrip | openssl/crypto/bn/bn_conv.c:15-40 | for every number the printed serial passes the syntax check, is canonical and is read back as the same number |
| SerialHex.FoundByNumber | openssl/apps/ocsp.c:1231-1252 | a row with a syntactically good serial is found by the printed form of a number if and only if its serial is canonical and denotes that number |
| SerialHex.CanonicalKeys | openssl/apps/lib/apps.c:1467-1477 | canonical serials have the same index key exactly when they are the same number |
| AsnTime.UtcTextAccepted | openssl/crypto/asn1/a_time.c:76-262 | a printed time between 1950 and 2049 is a readable UTCTime with the same fields |
| AsnTime.UtcRoundTrip | openssl/crypto/asn1/a_time.c:264-321 | a printed time is readable as UTCTime if and only if its year is between 1950 and 2049, and then gives back every field |
| AsnTime.AcceptedIsPrinted | openssl/crypto/asn1/a_time.c:76-262 | conversely an accepted full-length text in Zulu time is the printed form of a valid time between 1950 and 2049 |
| RevocationInfo.FindReason | openssl/apps/ca.c:2611-2616 | the index of the first reason name equal up to case, or none |
| RevocationInfo.SplitColumn | openssl/apps/ca.c:2578-2597 | cutting a copy of the column in place at its first two commas yields time, reason and the argument with its own commas |
| RevocationInfo.UnpackInPlace | openssl/apps/ca.c:2567-2676 | the in-place unpacker computes the unpacking function, for every column |
| RevocationInfo.AcceptedReasons | openssl/apps/ca.c:2357-2380 | every code it accepts is -1 for none, 0 to 6 or 8; a hold instruction comes only with code 6 and an invalidity date only with 1 or 2 |
| RevocationInfo.AcceptedArguments | openssl/apps/ca.c:2394-2435 | an argument is accepted exactly if it is one of the eight reason names in any case, a readable OID for a hold instruction, or a readable time for a compromise |
| RevocationInfo.FieldRoundTrip | openssl/apps/ca.c:2440-2464 | for every accepted revocation and any time text without a comma, the column is readable exactly when the time is, and then describes the revocation |
| RevocationInfo.RevocationRoundTrip | openssl/apps/ca.c:2382-2464 | for every accepted revocation type and argument, commas included, the written column is readable exactly for years 1950 to 2049 and gives back time, argument and reason |
| TextDb.WriteField | openssl/crypto/txt_db/txt_db.c:206-219 | the writing loop escapes exactly the tabs |
| TextDb.WriteFields | openssl/crypto/txt_db/txt_db.c:204-226 | a row becomes its escaped fields separated by tabs and one newline |
| TextDb.ReadFields | openssl/crypto/txt_db/txt_db.c:63-116 | the reading loop splits at unescaped tabs and accepts exactly six fields, ignoring one further tab |
| TextDb.SplitEncoded | openssl/crypto/txt_db/txt_db.c:63-92 | writing then splitting gives back the fields when none but the last ends in a backslash, and otherwise fewer fields |
| TextDb.RowRoundTrip | openssl/crypto/txt_db/txt_db.c:63-116 | a written row is read back unchanged or refused, decided by backslashes at field ends |
| TextDb.FieldCount | openssl/crypto/txt_db/txt_db.c:83-104 | a line is accepted exactly with six fields, or seven of which the last is empty |
| TextDb.EscapedTabs | openssl/crypto/txt_db/txt_db.c:212-219 | only tabs are escaped, by a backslash before them |
| TextDb.CommentSkipped | openssl/crypto/txt_db/txt_db.c:65-66 | a line that starts with a hash sign is skipped |
| TextDb.UnterminatedDropped | openssl/crypto/txt_db/txt_db.c:67-70 | text after the last newline is not read |
| TextDb.FileRoundTrip | openssl/crypto/txt_db/txt_db.c:187-232 | for every list of rows the file is read back unchanged if and only if no field holds a newline, no row starts with a hash sign and no field but the last of a row ends in a backslash |
| CaQueries.CertificateStatus | openssl/apps/ca.c:2240-2305 | the status letter of the row with the padded upper-case serial if it is V, R, E or S, otherwise an error |
| CaQueries.QueryFindsNumber | openssl/apps/ca.c:2252-2271 | a queried hex serial in either case and of either parity finds the row that the printed form of its number finds |
| CaQueries.MakeCrl | openssl/apps/ca.c:1225-1246 | one entry per revoked row in order, nothing if a column is unreadable, version 2 exactly when some entry has a reason |
| CaQueries.CrlEntries | openssl/apps/ca.c:1225-1246 | the list exists for every loadable database and holds exactly the numbers and reasons of its revoked rows |
| CaQueries.CrlInOrder | openssl/apps/ca.c:1225-1246 | the entries are those of the revoked rows at increasing positions, and no other row is revoked |
| OcspResponder.FindIssuer | openssl/apps/ocsp.c:1127-1143 | finds a responder CA exactly when one of them matches the request id |
| OcspResponder.ForeignAnswer | openssl/apps/ocsp.c:1150-1155 | an id whose issuer is none of the responder CAs is answered unknown, whatever the database holds under its serial |
| OcspResponder.SinglesInOrder | openssl/apps/ocsp.c:1106-1192 | the entries of a response are those of ids at increasing positions, each with its own id and its own answer, and every other id is that of a row neither valid nor revoked |
| OcspResponder.UncheckedRows | openssl/apps/ocsp.c:1164-1180 | for revoked rows that were never checked: an unreadable time fails the response, an unreadable reason is dropped |
| OcspResponder.Answer | openssl/apps/ocsp.c:1106-1192 | the status for one id, as characterised for foreign, served, checked and unchecked rows |
| OcspResponder.MakeResponse | openssl/apps/ocsp.c:1074-1192 | malformed without ids, an internal error if one id fails or has an unknown digest, otherwise one entry per answered id in order, each with its own id; every entry for a foreign CA is unknown |
| OcspResponder.FoundIffCanonical | openssl/apps/ocsp.c:1231-1252 | the responder finds a row by the number in its serial if and only if the serial is written canonically |
| OcspResponder.LookupByNumber | openssl/apps/ocsp.c:1231-1252 | a lookup returns a row exactly when its serial is canonical and denotes the requested number |
| OcspResponder.OcspAgreesWithCrl | openssl/apps/ocsp.c:1144-1190 | with canonical serials, for every served id: revoked with some time, reason, hold and invalidity date exactly when the CRL lists the serial so, good exactly when its row is valid, unknown exactly when there is no row, no entry for any other row |
| OcspResponder.AnswerIsStanding | openssl/apps/ocsp.c:1144-1190 | for a served id the answer is unknown, or what the canonical row with its number stands for: good, revoked with its details, or no entry |
| OcspResponder.ListedIsStanding | openssl/apps/ca.c:1225-1246 | the CRL lists a number with some details exactly when a row with that number stands for that revocation |
| OcspResponder.AgreesIffRepresented | openssl/apps/ocsp.c:1074-1192 | for every loadable database with distinct serial keys and every served id, responder and CRL agree on the serial if and only if every row with its number is represented by a row that writes the number canonically and stands for the same |
| OcspResponder.RunCanonical | openssl/apps/ca.c:1823-1826 | canonical serials stay canonical over every run |
| OcspResponder.ReachableOcspAgrees | openssl/apps/ocsp.c:1074-1192 | the agreement of responder and CRL holds after every clean run from a loadable database with canonical serials |
| OcspResponder.LowerCaseDisagrees | openssl/apps/ocsp.c:1231-1252 | a revoked row with the lower-case serial 0a passes the load checks and is listed in the CRL, while the responder calls its number unknown |
| CaPolicy.NextIndex | openssl/crypto/x509/x509name.c:71-90 | the next entry of a kind after a position, none skipped |
| CaPolicy.FindInCa | openssl/apps/ca.c:1637-1664 | an entry of the CA's name equal to the request's is found exactly when there is one |
| CaPolicy.ApplyItem | openssl/apps/ca.c:1599-1680 | a policy item is met exactly when its object and type are known, a supplied or match item occurs and a match item's entries all occur in the CA's name; its result is the request's entries of that kind in order |
| CaPolicy.ItemMeaning | openssl/apps/ca.c:1599-1680 | entry by entry: the object is known, the rule is one of the three, supplied and match need an entry of the kind, and match needs every such entry among the CA's |
| CaPolicy.ApplyPolicy | openssl/apps/ca.c:1589-1681 | the request is accepted exactly when every item is met; the subject is the in-order concatenation per item of the request's entries |
| CaPolicy.OccurrencesConcat | openssl/apps/ca.c:1607-1680 | the entries of a kind come in the order of the name, part after part |
| CaPolicy.GroupedConcat | openssl/apps/ca.c:1589-1681 | the subject comes in the order of the policy, part after part |
| CaPolicy.DropEmail | openssl/apps/ca.c:1801-1808 | deleting and stepping back removes exactly the email entries and keeps the order |
| CaPolicy.CertifiedSubject | openssl/apps/ca.c:1580-1815 | acceptance and the certified subject under selfsign, preserve and email_in_dn |
| CaPolicy.SelfSignedMatch | openssl/apps/ca.c:1581-1584 | under selfsign a match item accepts exactly the requests that a supplied item accepts |
| CaPolicy.WithoutPartition | openssl/apps/ca.c:1801-1808 | filtering and the removed entries together hold exactly the entries of the name |
| CaRequest.DoBody | openssl/apps/ca.c:1489-1984 | a request the policy refuses is an error and changes nothing; an accepted one is issued under the policy's subject |
| CaBatch.Run.constructor | openssl/apps/ca.c:929-971 | a batch starts at the counter read from the serial file with nothing done |
| CaBatch.Run.Process | openssl/apps/ca.c:971-1055 | one request: certified ones are stacked and advance the serial, declined ones do not, errors stop the batch |
| CaBatch.Run.ProcessOption | openssl/apps/ca.c:971-1020 | an optional request is processed or skipped |
| CaBatch.Run.ProcessAll | openssl/apps/ca.c:971-1055 | SPKAC, self-signed, -in and argument requests are processed as one sequence |
| CaBatch.CertifyConcat | openssl/apps/ca.c:971-1055 | processing two lists in turn is processing their concatenation |
| CaBatch.BatchConservation | openssl/apps/ca.c:971-1055 | certified requests get consecutive serials from the start, new rows, stacked certificates and total_done agree, the counter ends at start plus total_done, and every request is counted unless the batch fails |
| CaBatch.BatchRequests | openssl/apps/ca.c:971-1055 | for every batch the certificates are those of requests at increasing positions that the operator signed, each with the subject and end date of its request and consecutive serials; in a batch that does not fail every other request was turned away or declined |
| CaBatch.CertifyOne | openssl/apps/ca.c:1005-1029 | one request either is certified for what it asks under the next serial or adds nothing |
| CaBatch.RequestsInOrder | openssl/apps/ca.c:971-1055 | -spkac comes first, then -ss_cert, then -in, then the arguments in order |
| CaBatch.BatchStaysBelow | openssl/apps/ca.c:971-1055 | for every database and batch: a row at or above the final counter was in the index before and at or above its counter, the next serial clashes only with an earlier row, and a counter above every serial stays so |
| CaProperties.RevokeAdds | openssl/apps/ca.c:2187-2204 | a revocation or import adds a row exactly when neither index has the certificate's key |
| CaBatch.RevokeStaysBelow | openssl/apps/ca.c:2187-2204 | a revocation or import leaves a new serial at or above the counter exactly when neither index has the certificate's key and its number is not below the counter |
| CaBatch.ExpireStaysBelow | openssl/apps/ca.c:2328-2351 | marking rows expired brings no serial to the counter |
| CaCommit.LiveIsSafe | openssl/apps/ca.c:1149-1156 | in every intermediate state of the files, cut ones included, a whole live counter is above every serial issued into a whole live index, and old or new counter and index are somewhere whole |
| CaCommit.Disk.constructor | openssl/apps/ca.c:1061-1089 | a disk starts with its files, the outcomes of its writes and renames and an empty trace |
| CaCommit.Disk.Write | openssl/apps/lib/apps.c:1582-1592 | a file that cannot be opened is left alone, otherwise it holds the content or is cut short, and the state is recorded |
| CaCommit.Disk.SaveSerial | openssl/apps/lib/apps.c:1555-1604 | fails exactly when the file cannot be opened; a counter that was cut short counts as saved |
| CaCommit.Disk.Rename | openssl/apps/lib/apps.c:1606-1648 | renaming is atomic, fails without effect, and the state is recorded |
| CaCommit.Disk.RotateSerial | openssl/apps/lib/apps.c:1606-1648 | no state passed through loses the counter or pairs a new index with an old counter; succeeds exactly when both renames do, and then the saved counter is live; a failed rotation leaves the old counter live if the undoing rename succeeds |
| CaCommit.Disk.SaveIndex | openssl/apps/lib/apps.c:1768-1813 | only the two new files change; succeeds exactly when there are rows, their writing reports no error and the attribute file can be opened; each file then holds what its writing left |
| CaCommit.Disk.SwapIndex | openssl/apps/lib/apps.c:1842-1856 | the index is moved aside and replaced exactly when both renames succeed, in every state the old or the new rows can be read, and a failed swap leaves the old index live if the undoing rename succeeds |
| CaCommit.Disk.SwapAttributes | openssl/apps/lib/apps.c:1857-1871 | the attribute file is replaced or put back without touching counter and index |
| CaCommit.Disk.FinishIndex | openssl/apps/lib/apps.c:1857-1876 | the attributes are put in place exactly when their renames succeed; otherwise the old index is live again if its rename succeeds, and nothing is lost |
| CaCommit.Disk.UndoIndex | openssl/apps/lib/apps.c:1864-1873 | the old index is live again if the second rename succeeds, the new one is aside again if the first does, and nothing is lost in any state |
| CaCommit.Disk.RotateIndex | openssl/apps/lib/apps.c:1815-1880 | no state passed through loses the index; succeeds exactly when every rename of a file that is there does, and then the saved index and attributes are live |
| CaCommit.Disk.RotateBoth | openssl/apps/ca.c:1149-1156 | first the counter and then the index, through live states only |
| CaCommit.Disk.Stage | openssl/apps/ca.c:1083-1089 | counter and index are saved beside the live files without touching them; an unopened file, an empty database or a reported error in the rows stops the run, anything else goes on |
| CaCommit.Disk.Commit | openssl/apps/ca.c:1061-1156 | wherever the commit stops a whole live counter is above every serial issued into the live index and nothing is lost; the exact condition of success; on success counter, index and attributes are live as their writing left them, new if it was complete and cut short otherwise; if the certificates cannot be written the live files are unchanged |
| CaCommit.CutCounterGoesLive | openssl/apps/lib/apps.c:1591-1593 | an instance: a counter cut short is made live by a commit that reports success, with the old counter beside it |
| CaCommit.ReplaceIndex | openssl/apps/ca.c:800-804 | saving and rotating the index alone: the exact condition of success, nothing lost in any state, the counter untouched |
| CaCommit.RevokeCommand | openssl/apps/ca.c:1311-1337 | a failed revocation leaves every file as it was, even if a row was inserted in memory; nothing is lost in any state; on success the live index is what its writing left, and index and counter are as safe as before if and only if the certificate could not be added, its number is below the counter or the index was cut short |
| CaCommit.UpdateCommand | openssl/apps/ca.c:784-805 | a count of -1 or 0 leaves every file as it was although rows may have changed in memory; otherwise the live index is replaced, and in every state nothing is lost and no serial comes to the counter |
| CaCommit.IssueCommand | openssl/apps/ca.c:971-1156 | a whole issuing run, on any loaded database, is safe and loses nothing at every stop and changes no file when it fails, certifies nothing or is not confirmed; it succeeds exactly when the batch does and, if there is something confirmed to save, every open, checked write and rename does; then start plus total_done and as many more rows are in place, each whole exactly if its writing was complete |
| CryptTail.WordOfChars | openssl/apps/passwd.c:25-35 | the 64-character alphabet is injective: a word of n characters is recovered from them |
| CryptTail.Alphabet | openssl/apps/passwd.c:25-35 | the alphabet is dot, slash, digits, capitals, small letters |
| CryptTail.B64From24Bit | openssl/apps/passwd.c:715-723 | the shifting loop prints the low six bits of the three joined bytes first, n characters in all |
| CryptTail.PrintDigest | openssl/apps/passwd.c:725-762 | the tables of the SHA tails print the digest in the layout of the encoder |
| CryptTail.PermuteMd5 | openssl/apps/passwd.c:455-460 | position k below 14 gets byte 6k mod 17, the last two positions bytes 5 and 11 |
| CryptTail.FourCharsAreWord | openssl/apps/passwd.c:471-475 | the four shift-and-mask characters of md5crypt are those of the joined 24-bit word |
| CryptTail.PrintMd5 | openssl/apps/passwd.c:449-480 | permuting and printing gives the md5crypt layout of the digest |
| CryptTail.DecodeEncode | openssl/apps/passwd.c:715-762 | a decoder recovers every byte that the layout places from the printed tail |
| CryptTail.LayoutsValid | openssl/apps/passwd.c:725-762 | all three layouts stay inside their digests |
| CryptTail.PrintedDeterminesDigest | openssl/apps/passwd.c:715-765 | for the 22, 43 and 86 character encodings equal tails come only from equal digests |
| CryptHash.FeedBlocks | openssl/apps/passwd.c:629-634 | feeding whole blocks and a remainder feeds the buffer repeated cyclically to the length |
| CryptHash.FeedBits | openssl/apps/passwd.c:636-643 | the shifting loop feeds one string per bit of the length, lowest first |
| CryptHash.FeedTimes | openssl/apps/passwd.c:651-653 | the counting loop feeds its string that many times |
| CryptHash.FillBlocks | openssl/apps/passwd.c:658-662 | the block copies fill the buffer with byte k equal to DP[k mod size] |
| CryptHash.Copy | openssl/apps/passwd.c:660-662 | copying writes its range and keeps what is before it |
| CryptHash.RunRounds | openssl/apps/passwd.c:681-702 | every round hashes what the parity, mod 3 and mod 7 schedule prescribes |
| CryptHash.RoundSchedule | openssl/apps/passwd.c:681-702 | case by case what a round hashes, by the parity of its number and its divisibility by 3 and 7 |
| CryptHash.FirstRounds | openssl/apps/passwd.c:681-702 | the first three rounds written out |
| CryptHash.LowestBitFirst | openssl/apps/passwd.c:636-643 | the lowest bit of the length is fed first, the digest for a 1 and the password for a 0 |
| CryptHash.OneBytePassword | openssl/apps/passwd.c:613-645 | digest A of a one-byte password written out |
| CryptHash.TwoBytePassword | openssl/apps/passwd.c:613-645 | digest A of a two-byte password written out |
| CryptHash.SequenceBytes | openssl/apps/passwd.c:647-679 | P and S byte by byte: digest of the password as often as it is long, and of the salt 16 plus A[0] times |
| CryptHash.TwoRounds | openssl/apps/passwd.c:681-702 | the hash with two rounds written out, with P and S in their places |
| CryptHash.ShaCrypt | openssl/apps/passwd.c:613-702 | for every non-empty password and salt and every round count the hash is fed exactly the strings of steps 1 to 21 of SHA-crypt; an empty password or salt is an error |
| CryptHash.Md5Crypt | openssl/apps/passwd.c:382-443 | the same for md5crypt, its length bits and its 1000 rounds, also for empty passwords |
| CryptHash.ShortMd5 | openssl/apps/passwd.c:382-443 | md5crypt of an empty and of a two-byte password written out, with its 1000 rounds |
| CryptText.ShaCryptCommand | openssl/apps/passwd.c:503-766 | the printed text is magic, specification, salt and tail of the digest, no output exactly on a bad magic, rounds text or empty password or salt, and always within the 124-byte buffer |
| CryptText.ShaCryptAccepts | openssl/apps/passwd.c:536-569 | there is a result exactly for the variants 5 and 6, a good specification and a non-empty password and salt |
| CryptText.Md5CryptCommand | openssl/apps/passwd.c:322-380 | the md5crypt text as printed, always within its buffer |
| CryptText.Md5Shape | openssl/apps/passwd.c:322-380 | there is a result exactly for a magic of at most four characters: the marker if any, at most eight characters of salt, a dollar sign and 22 characters |
| CryptText.GenerateSalt | openssl/apps/passwd.c:797-812 | every random byte is mapped in place to the alphabet character of its low six bits |
| CryptText.GeneratedSaltIsPlain | openssl/apps/passwd.c:552-611 | a generated salt is never taken for a rounds specification and is kept whole |
| CryptText.RoundsRequested | openssl/apps/passwd.c:552-569 | for every decimal number the rounds used are that number clamped to 1000..999999999 |
| CryptText.RoundsClamped | openssl/apps/passwd.c:558-564 | a request below 1000 gives 1000, above 999999999 gives 999999999, any other gives itself |
| CryptText.SpecsRefused | openssl/apps/passwd.c:556-568 | a rounds prefix whose number is not followed by a dollar sign is an error |
| CryptText.PlainSalt | openssl/apps/passwd.c:576-578 | any other text is a salt of at most 16 characters with 5000 rounds |
| CryptText.HeaderFits | openssl/apps/passwd.c:576-611 | rounds and salt length are always within their limits and so is the printed header |
| CryptText.SpecRoundTrip | openssl/apps/passwd.c:552-611 | the printed salt specification is read back as the same specification |
| CryptText.Rehash | openssl/apps/passwd.c:503-766 | hashing again with the specification found in the output gives the identical output |
| CryptText.ExactFit | openssl/apps/passwd.c:515 | the longest SHA-512 output with nine-digit rounds and a 16-character salt fills the buffer exactly |
| CryptText.ResultDeterminesDigest | openssl/apps/passwd.c:503-766 | two results are the same text only if variant, rounds, salt and digest are the same |
| ConnPipe.Conn.constructor | benchmark/openssl-bench/bench.cc:175-182 | a connection starts empty |
| ConnPipe.Conn.Move | benchmark/openssl-bench/bench.cc:184-193 | a moved connection reads its whole buffer again: the unread bytes are kept exactly when nothing had been consumed |
| ConnPipe.Conn.InstallReadBio | benchmark/openssl-bench/bench.cc:200-208 | the read BIO is installed over the whole buffer |
| ConnPipe.Conn.DropReadBytes | benchmark/openssl-bench/bench.cc:273-282 | the consumed prefix leaves the buffer, exactly the unread suffix stays, and the BIO is stale |
| ConnPipe.Conn.Write | benchmark/openssl-bench/bench.cc:305-307 | written bytes are appended to the pending ones |
| ConnPipe.Conn.ReadSome | benchmark/openssl-bench/bench.cc:311-313 | one read takes the next bytes in order, as many as asked for or as there are |
| ConnPipe.Conn.Read | benchmark/openssl-bench/bench.cc:309-317 | reading on until n bytes have come gives the next n bytes in order however they are delivered, and trips the assertion exactly when fewer are there |
| ConnPipe.Conn.TakePending | benchmark/openssl-bench/bench.cc:251-256 | a chunk is the next pending bytes |
| ConnPipe.Conn.Accept | benchmark/openssl-bench/bench.cc:258-265 | the first chunk of a transfer removes the consumed bytes, every chunk is added at the end |
| ConnPipe.Conn.TransferTo | benchmark/openssl-bench/bench.cc:248-271 | chunk by chunk all pending bytes reach the end of the other side's unread bytes, and the other BIO is a suffix of its buffer again |
| ConnPipe.Interleave | benchmark/openssl-bench/bench.cc:709-741 | over every interleaving of writes, reads, partial reads and transfers in both directions the connections behave as two plain queues each, and received, unread and pending bytes concatenated are the bytes sent |
| ConnPipe.Perform | benchmark/openssl-bench/bench.cc:248-317 | one operation acts on the queues as prescribed and keeps the order law |
| ConnPipe.WriteStep | benchmark/openssl-bench/bench.cc:305-307 | a write extends the pending queue |
| ConnPipe.ReadStep | benchmark/openssl-bench/bench.cc:309-317 | a read takes n bytes from the front of the unread queue, or all of them |
| ConnPipe.ReadSomeStep | benchmark/openssl-bench/bench.cc:311-313 | a partial read takes as many as there are up to n |
| ConnPipe.TransferStep | benchmark/openssl-bench/bench.cc:248-271 | the pending queue of one side is appended to the unread queue of the other; nothing is pending then |
| ConnPipe.MoveReader | benchmark/openssl-bench/bench.cc:184-193 | moving the reader keeps the order law if and only if it has consumed nothing of its buffer |
| CmsSigners.FileParam | openssl/apps/cms.c:731-748 | a key option joins the last entry if that has its number and begins a new one otherwise |
| CmsSigners.Accumulate | openssl/apps/cms.c:653-847 | the option loop with its two lists and parameter list computes the accumulated state, or gives up |
| CmsSigners.FindParams | openssl/apps/cms.c:1193-1198 | a signer gets the parameters of the first entry with its index |
| CmsSigners.StepRepresents | openssl/apps/cms.c:653-748 | every option keeps the variables a representation of the signer groups, the last one open |
| CmsSigners.BalanceLost | openssl/apps/cms.c:716-748 | a key option numbered for another group leaves the open group with fewer options filed than given |
| CmsSigners.PassedStays | openssl/apps/cms.c:716-748 | a group that is short and passed by the recipients stays short whatever follows |
| CmsSigners.LoopBalance | openssl/apps/cms.c:653-748 | over every option sequence: aligned ones file as many options under each number as its group was given, all others leave some group short |
| CmsSigners.LoopRepresents | openssl/apps/cms.c:653-748 | over every option sequence the lists are those of the closed groups, and on aligned sequences the parameters are those of the groups |
| CmsSigners.LoopAccepts | openssl/apps/cms.c:653-748 | the option loop goes through exactly on proper command lines: no key after a key that still lacks its certificate, every key option with a certificate, key or (under -encrypt) recipient before it, every recipient loadable |
| CmsSigners.AcceptedLines | openssl/apps/cms.c:823-847 | a signing run succeeds if and only if the command line is proper, selects -sign or -resign last and every group has a certificate |
| CmsSigners.AccumulatedMeaning | openssl/apps/cms.c:823-847 | a successful signing run has one signer and one key per group in order, the key being the group's own or else its certificate file; its parameter list is the groups' if and only if every -keyopt came outside -encrypt or with as many recipients as groups, and then its indices strictly increase |
| CmsSigners.KeyoptsReachTheirGroup | openssl/apps/cms.c:1175-1207 | for every signing run that succeeds: each signer finds exactly the key options given while its group was open, in order, if and only if every -keyopt came outside -encrypt or with as many recipients as groups |
| CmsSigners.WithoutEncryptAligned | openssl/apps/cms.c:716-727 | a command line that never selects -encrypt is aligned |
| CmsSigners.GroupsConserve | openssl/apps/cms.c:653-748 | every -signer, -inkey and -keyopt lands in exactly one group in command-line order |
| CmsSigners.SignersInOrder | openssl/apps/cms.c:653-847 | a signing run uses every -signer in order and every -inkey exactly once in order |
| CmsSigners.KeyoptUnderEncryptIsLost | openssl/apps/cms.c:716-727 | a key option given under -encrypt with two recipients is never seen by the only signer |
| CmpSections.PrevItem | openssl/apps/cmp.c:2648-2678 | one step back: the item cut to 40 characters and the end of the one before |
| CmpSections.ConfGetString | openssl/apps/cmp.c:2681-2693 | the first defined value in visiting order, on every list |
| CmpSections.VisitedAre | openssl/apps/cmp.c:2648-2678 | from any position right after an item, exactly the items before it are visited, last to first |
| CmpSections.VisitsAllItems | openssl/apps/cmp.c:2648-2678 | on every list exactly the non-empty items are visited from last to first, each cut to 40 characters, preceded by one empty item if and only if the list ends in a separator |
| CmpSections.JoinedItems | openssl/apps/cmp.c:2648-2678 | words without commas and blanks, joined by any text of those, are the items of the list |
| CmpSections.ConfIsRightmost | openssl/apps/cmp.c:2681-2693 | the value is that of the right-most item that defines the option, unless the list ends in a separator and the empty section defines it |
| CmpGeninfo.ItemAdvances | openssl/apps/cmp.c:2112-2203 | the cursor strictly advances with every item |
| CmpGeninfo.SkipBlanks | openssl/apps/cmp.c:2123-2124 | the cursor moves over exactly the leading blanks |
| CmpGeninfo.ReadInt | openssl/apps/cmp.c:2140-2155 | a number is read and its comma skipped, as the parsing function says |
| CmpGeninfo.ReadText | openssl/apps/cmp.c:2162-2173 | a text is cut out in place at the next comma; nothing before it changes |
| CmpGeninfo.ReadValue | openssl/apps/cmp.c:2140-2178 | int and str values, any other keyword is an error, nothing before changes |
| CmpGeninfo.ReadItem | openssl/apps/cmp.c:2123-2178 | one item is taken from the string in place and the cursor is past it |
| CmpGeninfo.HandleGeninfo | openssl/apps/cmp.c:2112-2203 | the destructive parser computes the parsing function on every argument |
| CmpGeninfo.ItemForm | openssl/apps/cmp.c:2123-2138 | an item that is read is blanks, an accepted OID without colon, a colon and a value |
| CmpGeninfo.ValueForm | openssl/apps/cmp.c:2140-2178 | a value that is read is int or str in any case, a colon, a number or a text without comma, and ends at a comma or at the end |
| CmpGeninfo.RenderRoundTrip | openssl/apps/cmp.c:394-397 | for every non-empty list of expressible items, any integers, parsing the documented rendering gives the items in order, numbers brought into the range of long |
| CmpGeninfo.RoundTripIffInRange | openssl/apps/cmp.c:2140-2155 | so the list itself comes back if and only if every number fits a long |
| EncFraming.SetHex | openssl/apps/enc.c:849-877 | nibble by nibble in place: missing digits are zero, excess ones ignored, and the text is refused exactly when a digit that is used is not hex |
| EncFraming.HexPadCut | openssl/apps/enc.c:849-877 | missing digits count as zeros, excess ones are ignored, and the text is refused exactly when a used digit is not hex |
| EncFraming.HexRoundTrip | openssl/apps/enc.c:745-763 | printed hex given back restores the same bytes |
| EncFraming.CopyLoop | openssl/apps/enc.c:775-789 | for every buffer size and every pattern of short reads the updates add up to one update with the whole input; a cipher that cannot stream accepts exactly inputs delivered in one piece |
| EncFraming.Pump | openssl/apps/enc.c:775-796 | copying and flushing gives the output for the input as a whole, or fails when the final block does |
| EncFraming.ReadSalt | openssl/apps/enc.c:580-599 | the header is split off exactly when the file starts with Salted__ and a whole salt follows |
| EncFraming.EncryptRun | openssl/apps/enc.c:541-577 | an encrypt run writes magic, salt and the ciphertext of the whole input whatever the buffer size and the pieces |
| EncFraming.DecryptRun | openssl/apps/enc.c:578-600 | a decrypt run finds salt and text of a file whatever the buffer size and the pieces |
| EncFraming.EncryptDecrypt | openssl/apps/enc.c:541-600 | with the same options decrypting an encrypt run's output gives back salt and input; encrypting fails exactly on an unusable salt argument or when the cipher itself fails |

## Left out

- Hashes, ciphers, key derivation, signatures, X.509 and ASN.1 encoding, object identifiers: parameters of the model.
- TXT_DB_read's buffering: a line is modelled whole; a comment line longer than the buffer, whose continuation the code would take for a row, is not modelled.
- An empty type field in a row: the first character is then the terminating zero in C; such a row is neither valid nor revoked here.
- X509_CRL_sort and the CRL's own number file: entries are in database order here.
- The -rmd choice of a response digest and the responder's signature.
- String-type checks, the msie hack and the extension sections of do_body: they only reject or decorate a request.
- Random serial numbers, and a commit whose live serial file does not exist yet (-create_serial): the safety of the commit is stated for sequential serials in existing files.
- What reading a file that was cut short yields: it counts as not whole here, though a shortened counter may still be a number.
- Explicit key and iv options of enc; its base64 and compression filters act on the whole file here, and one that delivers the salt header in several pieces is not modelled.
- The TLS handshake, its sessions and timings in the benchmark.
- EBCDIC variants and allocation failures.
- All other commands: key and parameter tools, listings and converters (dsa, ec, genpkey, list, pkcs7, crl), certificate requests (req, x509) and the TLS test tools (s_client, s_server), which pass their arguments on to libcrypto and libssl; and those libraries.
