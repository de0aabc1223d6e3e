# Verified models of papquic

papquic benchmarks post-quantum QUIC handshakes with a patched OpenSSL 3.6.0. This project
models the parts of it that carry the most logic and proves what they promise, in Dafny:

- the certificate authority of `openssl ca`: the policy that shapes a subject, the index as a
  state machine with its file, revocation texts, CRLs, the OCSP responder that reads the same
  index, and serial numbers across runs that may stop at any rename;
- the option and text machines of `openssl cms`, `openssl cmp` and `openssl configutl`, the
  last together with the configuration parser that reads its output;
- the scripts that pair packets from two logs, split frame lists, remove outliers, choose
  algorithm combinations, reserve CPU cores and report amplification.

One module follows one component: `SerialText`, `Calendar`, `Asn1Time`, `RevInfo`, `TxtDb`, `CaDb` (the index
and its operations), `CaRuns` (runs over index and file), `CaPolicy`, `CaStatus` (CRL, OCSP,
`-status`), `CaCommit`, `CmsSigners`, `CmpSections`, `ConfText`, `PacketFrames`, `PacketPairing`,
`Outliers`, `CpuLayout`, `AlgorithmMatrix`, `Amplification`. Methods follow the source's loops and
in-place updates and are proved equal to specification functions; lemmas then prove what holds
of those functions for every input, every run or every reachable state.
`dafny verify dfyconfig.toml` checks all of it.

## What comes from outside

The clock, the operator's answers, the signature results, the object-identifier table, the
issuer hash, the digest table, the kernel's CPU files, the algorithm tables and the
configuration values are parameters, and the theorems hold for all of them. A distinguished name is a list of
entries with their RDN numbers, a big number is an integer, and a parsed log line is a record.

## Where the code does less than it says

Each of these is a theorem with an exact condition, and with a concrete case.

- The time of revocation is written as GeneralizedTime from 2050 on and read as UTCTime only. A
  certificate revoked then makes the loader refuse the whole index
  (`CaRuns.RevokeExact`, `CaRuns.RevokedIn2050`; `CaRuns.StepExact` has the condition for every step),
  and the responder fail on every request about it (`CaStatus.RevokedIsPublished`).
- The loader accepts a row with an empty type field. Revoking that row writes two characters over
  the one there is room for, which cuts the expiry behind it, and the loader refuses the index
  from then on (`CaRuns.RevokeExact`, `CaRuns.UntypedRowIsSpoiled`).
- The loader accepts serials in lower case and negative serials with leading zero bytes, but a
  lookup by number does not find them. The CRL then lists a revoked certificate that the responder
  does not know (`CaStatus.OcspAgreesWithCrl`, `SerialText.KeyedExact`, `CaStatus.LowerCaseIsMissed`).
- `configutl` does not escape the backquote, which the configuration parser takes for a
  quotation mark. A value survives exactly when it has none (`ConfText.PrintedLineReadsBack`,
  `ConfText.BackquoteIsLost`).
- The manual of `cmp` says that listed sections come before the default section. The lookup
  falls back to the default section for each listed section in turn, so a default value hides
  every listed section but the last (`CmpSections.LookupExact`, `CmpSections.DefaultHidesSection`).
- With a response digest (`-rcid`) the answers of the responder carry no serial number
  (`CaStatus.ResponseNamesSerial`, `CaStatus.SerialIsDropped`).
- A field of the index that ends in a backslash, other than the last field, joins the next one
  when the file is read (`TxtDb.FileRoundTrip`, `TxtDb.TrailingBackslashIsLost`).
- The reader of the index skips a comment line only as far as its buffer reaches and takes the rest
  for a row (`TxtDb.CommentsExact`, `TxtDb.LongCommentIsSplit`).
- The comment at openssl-3.6.0/apps/ca.c:2124-2127 says that a lookup by name skips revoked
  certificates. It skips exactly those that were not valid at the last load: the name index keeps a
  row that expires or is revoked later. A process that expires rows and then issues
  (openssl-3.6.0/apps/ca.c:741-760, 1806-1815) refuses a subject that no valid row has
  (`CaRuns.NameFoundExactly`, `CaRuns.StaleNameExact`, `CaRuns.ExpiredNameStaysTaken`).
- A certificate added from outside with a serial not below the next one on file blocks the serial
  file: no later run gets past it (`CaCommit.EffectAheadExact`, `CaCommit.CertifyStopsAt`,
  `CaCommit.ForeignSerialBlocks`).
- When the last rename of a commit fails, the code puts the old attribute file back. Without an
  attribute file there was nothing to put back, and an older version left beside it takes its place
  (`CaCommit.IndexCommitExactly`, `CaCommit.OldAttributesReturn`).

In two more places text and code differ, and the model follows the code without a theorem about the
difference: the docstring at scripts/run_packet_count.py:227 inverts the ratio that line 257 computes,
and README.md:120 says that CPU 0 is only put last, while the code always drops its core.

## Model

| member | source | states |
|---|---|---|
| SerialText.SerialSpells | openssl-3.6.0/apps/ca.c:1783-1786 | the stored text of any serial, negative ones included, parses back to that serial |
| SerialText.SerialHasSyntax | openssl-3.6.0/apps/ca.c:709-727 | every stored serial text passes the loader's length and digit checks |
| SerialText.EqualKeysEqualValues | openssl-3.6.0/apps/lib/apps.c:1518-1526 | texts that the serial index treats as equal denote the same number, whatever their leading zeros |
| SerialText.SerialInjective | openssl-3.6.0/apps/lib/apps.c:1518-1526 | different serials never share an index key |
| SerialText.StatusFindsSerial | openssl-3.6.0/apps/ca.c:2214-2230 | any hexadecimal spelling of a serial, in any letter case and with any leading zeros, has the key of its stored text |
| SerialText.StatusTextIsStoredText | openssl-3.6.0/apps/ca.c:2214-2230 | the shortest spelling in any letter case normalises to the stored text itself |
| SerialText.KeyedExact | openssl-3.6.0/apps/ca.c:709-727 | of the serial texts the loader accepts, a lookup by number finds exactly those in upper case and, after a minus sign, without a leading zero byte |
| SerialText.FileStemIsSerial | openssl-3.6.0/apps/ca.c:1061-1083 | the stem of a new certificate's file name is the text of its index row |
| SerialText.BuildCertificatePath | openssl-3.6.0/apps/ca.c:1049-1087 | the path is written inside the fixed buffer with its terminator, and refused exactly when it does not fit |
| Calendar.NextDayExact | openssl-3.6.0/crypto/o_time.c:179-184 | the day number of the next calendar day, over month ends, leap days and year ends, is larger by one |
| Calendar.FromToJulian | openssl-3.6.0/crypto/o_time.c:186-200 | converting any date to its day number and back gives the date |
| Calendar.SecondsOrder | openssl-3.6.0/crypto/o_time.c:133-184 | day number and seconds order two times exactly as year, month, day, hour, minute and second do |
| Calendar.CompareExact | openssl-3.6.0/crypto/o_time.c:102-130 | the difference of two times is their distance in seconds with one sign, so a comparison is one of the fields |
| Calendar.AdjustExact | openssl-3.6.0/crypto/o_time.c:72-100 | moving a time gives exactly the valid date that many seconds later, and fails exactly outside 1900 to 9999 |
| Asn1Time.PrintedTimeReadsBack | openssl-3.6.0/crypto/asn1/a_time.c:76-262 | a printed time reads back as the same date, for both kinds of time |
| Asn1Time.ParseExact | openssl-3.6.0/crypto/asn1/a_time.c:76-262 | a text is read as a time and an offset if and only if it is one of the forms of a valid date: two- or four-digit year, seconds, fraction, and Z or an offset, each where the kind allows it |
| Asn1Time.DenotedExact | openssl-3.6.0/crypto/o_time.c:72-100 | a time with an offset means exactly the valid date that many seconds later, from 1900 on |
| Asn1Time.UtcReadsPrintedTime | openssl-3.6.0/crypto/asn1/a_time.c:265-318 | the printed current time reads as a UTCTime exactly in the years 1950 to 2049 |
| Asn1Time.UtcOnCalendar | openssl-3.6.0/crypto/o_time.c:72-100 | no offset takes a UTCTime outside the years the calendar code accepts |
| Asn1Time.ParsedTimeIsPlain | openssl-3.6.0/crypto/asn1/a_time.c:76-262 | an accepted time holds no comma, tab, newline or backslash |
| RevInfo.MakeRevocationStr | openssl-3.6.0/apps/ca.c:2343-2425 | the stored text is time, reason and argument joined by commas, and nothing for a refused argument |
| RevInfo.WriteExact | openssl-3.6.0/apps/ca.c:2405-2424 | the computed buffer length is exact, so the bounded copies cut nothing off |
| RevInfo.UnpackRevinfo | openssl-3.6.0/apps/ca.c:2530-2639 | the field is cut at its first two commas only, and each failure hands out what was read before it |
| RevInfo.UnpackExact | openssl-3.6.0/apps/ca.c:2530-2639 | a text is read as a revocation if and only if its first part is a UTCTime and its second is absent or one of the eleven names in any letter case, with a known instruction or a time behind the names that need one; the code of each name is written out |
| RevInfo.MakeRevoked | openssl-3.6.0/apps/ca.c:2435-2487 | the result is 2 exactly when the entry gets an extension, and 0 exactly when the field cannot be read |
| RevInfo.UnpackedShape | openssl-3.6.0/apps/ca.c:2573-2621 | hold and invalidity data never come without their reason code and never together |
| RevInfo.RevocationRoundTrip | openssl-3.6.0/apps/ca.c:2343-2425 | reading a stored revocation gives its time, its RFC 5280 reason and its argument, commas included, exactly in 1950 to 2049 |
| TxtDb.WriteDb | openssl-3.6.0/crypto/txt_db/txt_db.c:187-232 | the nested loops write one line for each row, tabs escaped |
| TxtDb.ReadDb | openssl-3.6.0/crypto/txt_db/txt_db.c:20-125 | for every text, reading through the growing buffer gives its rows, wherever lines cross the buffer; comments are skipped by the piece |
| TxtDb.ScanExact | openssl-3.6.0/crypto/txt_db/txt_db.c:76-107 | a line is read as a row if and only if it is what that row is written as, where one more tab may follow |
| TxtDb.CommentsExact | openssl-3.6.0/crypto/txt_db/txt_db.c:60-70 | a text whose lines form a table is read as that table if and only if every piece into which the buffer cuts a comment line starts with the comment sign |
| TxtDb.LongCommentIsSplit | openssl-3.6.0/crypto/txt_db/txt_db.c:60-70 | any row behind a comment that fills the buffer is read, although it is part of the comment line |
| TxtDb.FileRoundTrip | openssl-3.6.0/crypto/txt_db/txt_db.c:187-232 | a table survives its file exactly when no field has a newline, no field but the last ends in a backslash and no row looks like a comment |
| TxtDb.ReadGivesStorable | openssl-3.6.0/crypto/txt_db/txt_db.c:76-107 | every table that can be read at all survives being written |
| TxtDb.TrailingBackslashIsLost | openssl-3.6.0/crypto/txt_db/txt_db.c:82-95 | a concrete row that does not survive |
| CaDb.Index.CheckFields | openssl-3.6.0/apps/ca.c:691-728 | the loader's loop accepts exactly the rows whose four fields are in order |
| CaDb.RowOkExact | openssl-3.6.0/apps/ca.c:691-728 | the accepted rows, spelled out: a readable revocation for a revoked row and none for others, a time in one of the two forms, pairs of hexadecimal digits after an optional minus sign |
| CaDb.Index.BuildIndexes | openssl-3.6.0/apps/lib/apps.c:1792-1815 | indexing succeeds exactly when serial keys are distinct and, if required, names of valid rows are |
| CaDb.Index.InsertRow | openssl-3.6.0/crypto/txt_db/txt_db.c:234-277 | a row is added to table and indexes, or refused on a clash with nothing changed |
| CaDb.Index.IssueCertificate | openssl-3.6.0/apps/ca.c:1777-1930 | name clash, serial clash, refusal and signing failure change nothing; otherwise the row is added, and that insertion cannot fail |
| CaDb.Index.DoRevoke | openssl-3.6.0/apps/ca.c:2095-2199 | revokes or adds exactly as specified, with at most one retry |
| CaDb.Index.UpdateDb | openssl-3.6.0/apps/ca.c:2268-2316 | marks in place the valid rows whose expiry does not compare after the current time, up to the first unreadable expiry, and returns the count or -1 |
| CaDb.FoundAfterInsert | openssl-3.6.0/apps/ca.c:2152-2168 | the inserted serial is found again, so the retry does not insert twice |
| CaRuns.RevokeSucceeds | openssl-3.6.0/apps/ca.c:2128-2193 | decided before the call: revocation succeeds exactly when the row of the certificate, on file or new, has its name, is not revoked and the argument suits the reason, or a new row only has to be added |
| CaRuns.RevokeExact | openssl-3.6.0/apps/ca.c:2095-2199 | the loader accepts the outcome if and only if a row to be added has a readable expiry, a row to be marked has a type, and its revocation falls in 1950 to 2049 |
| CaRuns.RevokedTooLate | openssl-3.6.0/apps/ca.c:2562-2571 | in any good index and for any reason, a revocation outside 1950 to 2049 succeeds and leaves an index the loader refuses |
| CaRuns.RevokedIn2050 | openssl-3.6.0/apps/ca.c:2401-2402 | a concrete case of that |
| CaRuns.RevokedWithoutType | openssl-3.6.0/apps/ca.c:2179-2182 | in any good index and for any reason, revoking a row without a type succeeds and leaves an index the loader refuses |
| CaRuns.UntypedRowIsSpoiled | openssl-3.6.0/apps/ca.c:2179-2182 | a concrete case of that |
| CaRuns.IssueSucceeds | openssl-3.6.0/apps/ca.c:1806-1930 | a certificate is issued exactly when neither its serial nor its subject is taken and it is signed |
| CaRuns.IssueExact | openssl-3.6.0/apps/ca.c:1777-1930 | exactly then the row is added as the insertion check would, and the loader accepts the outcome exactly when the expiry is readable |
| CaRuns.RevokeCoherent | openssl-3.6.0/apps/ca.c:2128-2193 | revoking and adding keep serials distinct and the name index complete, whatever the dates |
| CaRuns.ExpireExact | openssl-3.6.0/apps/ca.c:2284-2312 | exactly those valid rows expire whose expiry, moved by its offset, means no date after the current date and time field by field, and nothing else changes |
| CaRuns.DueExact | openssl-3.6.0/apps/ca.c:2303-2309 | the comparison of an expiry with the current time, as a statement about dates |
| CaRuns.ExpireFailsExact | openssl-3.6.0/apps/ca.c:2297-2301 | expiring fails exactly when the expiry of some valid row cannot be read |
| CaRuns.ExpireCounts | openssl-3.6.0/apps/ca.c:2284-2315 | otherwise the result is the number of rows that expire |
| CaRuns.ExpireTwice | openssl-3.6.0/apps/ca.c:2268-2316 | expiring at two times leaves the rows of expiring at the later one, the counts add up, and errors agree |
| CaRuns.LoadOfFileText | openssl-3.6.0/apps/lib/apps.c:1817-1862 | a committed index loads again row for row if and only if every row can be stored and the loader accepts the rows |
| CaRuns.LoadedIsStart | openssl-3.6.0/apps/ca.c:684-737 | every file the loader accepts satisfies the invariant that runs start from |
| CaRuns.RunsStayLoadable | openssl-3.6.0/apps/ca.c:691-728 | from every loadable file and over every clean run of issue, add, revoke, expire, commit and restart the file stays loadable, serials and valid names stay distinct, and rows on file only age |
| CaRuns.StepExact | openssl-3.6.0/apps/ca.c:2095-2199 | a step keeps the invariant if and only if what it will store is clean: a readable expiry, a subject of one line, a row with a type, a revocation in 1950 to 2049 and a hold instruction the file can carry |
| CaRuns.RunsExact | openssl-3.6.0/apps/ca.c:691-728 | the invariant holds at every point of a run if and only if every step was clean for the index it met |
| CaRuns.RevokedForever | openssl-3.6.0/apps/ca.c:2179-2182 | a revoked row on file is the same row after any clean run, restarts included |
| CaRuns.RevokedInMemory | openssl-3.6.0/apps/ca.c:2174-2182 | from every index and over every run of one process, clean or not, a revoked row in memory never changes |
| CaRuns.RestartStepFollows | openssl-3.6.0/apps/ca.c:684-737 | a restart always succeeds and finds the rows on file |
| CaRuns.RunKeepsAll | openssl-3.6.0/apps/ca.c:691-728 | a property of serials and names that the rows and all certificates of a clean run have holds of all rows after it, in memory and on file |
| CaRuns.DuplicateSubjectRefused | openssl-3.6.0/apps/ca.c:1806-1815 | with unique subjects a subject of a valid row is refused, whatever the serial |
| CaRuns.EmptySubjectsDoNotClash | openssl-3.6.0/apps/ca.c:1792-1804 | after any clean run with empty or well-formed subjects, a certificate with an empty subject is issued exactly when its serial is free and it is signed |
| CaRuns.NameLookup | openssl-3.6.0/apps/lib/apps.c:1803-1811 | right after loading, a name is taken exactly when a valid row has it |
| CaRuns.NameStaysTaken | openssl-3.6.0/apps/ca.c:2284-2312 | a name that is taken stays taken through every step of the same process, expiry and revocation included |
| CaRuns.NameFoundExactly | openssl-3.6.0/apps/lib/apps.c:1803-1811 | after any run since a load, a lookup by name finds a row exactly when it has the name and was valid when loaded or has been added since, valid or not |
| CaRuns.StaleNameExact | openssl-3.6.0/apps/ca.c:1806-1815 | a subject is refused although no valid row has it if and only if a row that has it expired or was revoked since the load |
| CaRuns.ExpiredNameStaysTaken | openssl-3.6.0/apps/ca.c:741-760 | a concrete case: refused after expiry in the same process, issued after writing and loading |
| CaPolicy.ApplyPolicy | openssl-3.6.0/apps/ca.c:1551-1642 | the nested loops succeed exactly when every field is known and has one of the three words, the request has an entry for each supplied or match field, and each entry of a match field has an equal one in the CA name; they build the wanted subject with one RDN for each entry, and otherwise report the first bad field with the error that explains it |
| CaPolicy.ApplyField | openssl-3.6.0/apps/ca.c:1560-1641 | one field pushes all request entries of its type in request order, or reports the verdict that the entries give it |
| CaPolicy.VerdictExact | openssl-3.6.0/apps/ca.c:1568-1641 | over the entries: when a field is acceptable, and for each error exactly what is missing or different |
| CaPolicy.WantedExact | openssl-3.6.0/apps/ca.c:1627-1641 | the wanted subject holds exactly the request entries of policy fields, ordered by field and then as in the request |
| CaPolicy.FindInCa | openssl-3.6.0/apps/ca.c:1598-1625 | the search finds an equal CA entry exactly when there is one, and tells a missing field from a different one |
| CaPolicy.RemoveAll | openssl-3.6.0/apps/ca.c:1759-1768 | deleting in place leaves exactly the other entries, same order, same grouping into RDNs, tight RDN numbers |
| CaPolicy.SameShapeGroups | openssl-3.6.0/crypto/x509/x509name.c:119-140 | names of the same shape put the same entries into a common RDN |
| CaPolicy.DeleteWellFormed | openssl-3.6.0/crypto/x509/x509name.c:101-142 | deleting an entry keeps RDN numbers starting at zero and without gaps |
| CaStatus.MakeCrl | openssl-3.6.0/apps/ca.c:1185-1245 | the CRL lists exactly the revoked rows in serial order and has version 2 exactly when it or an entry has extensions |
| CaStatus.GoodIndexHasCrl | openssl-3.6.0/apps/ca.c:1185-1206 | the CRL of every index the loader accepts can be made |
| CaStatus.LookupSerial | openssl-3.6.0/apps/ocsp.c:1180-1202 | nothing exactly when no row has the index key of the serial, else the first row that has it; a row the loader accepts denotes that very number |
| CaStatus.StatusOfRow | openssl-3.6.0/apps/ocsp.c:1104-1139 | the answer about a row, with the failure on an unreadable time and no answer for other types |
| CaStatus.RowStatusExact | openssl-3.6.0/apps/ocsp.c:1104-1139 | by the letter of the type: good for V, a failure exactly for R without a UTCTime in front, that time otherwise, and no answer for other letters |
| CaStatus.MakeOcspResponse | openssl-3.6.0/apps/ocsp.c:1043-1141 | the loop answers the ids in request order, fails as a whole on an unknown digest or unreadable time, refuses an empty request, and names the certificate asked about exactly without a response digest or a served issuer |
| CaStatus.ResponseFails | openssl-3.6.0/apps/ocsp.c:1066-1139 | a response fails if and only if some id has an unknown digest, or a served issuer and a row that fails |
| CaStatus.AnswerExact | openssl-3.6.0/apps/ocsp.c:1074-1139 | the status of an id is that of its serial exactly when some served issuer has its hash, and unknown otherwise |
| CaStatus.OcspAgreesWithCrl | openssl-3.6.0/apps/ocsp.c:1094-1139 | responder and CRL of a good index agree on every serial (revoked exactly when listed, with equal time, reason and extra data; good exactly for valid rows; unknown exactly without a row; no answer for other rows) if and only if every row is represented by the row its number is looked up by |
| CaStatus.KeyedExactly | openssl-3.6.0/apps/ocsp.c:1187-1199 | keyed serial texts are enough for that, and necessary when no number has two rows |
| CaStatus.UnkeyedIsMissed | openssl-3.6.0/apps/ocsp.c:1187-1199 | a revoked row of any good index is on the CRL by its number, and the responder does not know that number exactly when no row of it is keyed |
| CaStatus.LowerCaseIsMissed | openssl-3.6.0/apps/ocsp.c:1187-1199 | a concrete case in lower case |
| CaStatus.RunsPublishAgreement | openssl-3.6.0/apps/ca.c:1185-1245 | from keyed rows, responder and CRL agree on every serial after every clean run |
| CaStatus.LookupIsBySerial | openssl-3.6.0/apps/ocsp.c:1187-1199 | a lookup finds only a row of that number, and finds a given row of it exactly when its text is keyed |
| CaStatus.ResponseNamesSerial | openssl-3.6.0/apps/ocsp.c:1082-1097 | the answers of a response belong, in order, to the requests that get one, and each names its certificate exactly when no response digest is set or the issuer is not served |
| CaStatus.SerialIsDropped | openssl-3.6.0/apps/ocsp.c:1086-1089 | a concrete answer that names no certificate |
| CaStatus.GetCertificateStatus | openssl-3.6.0/apps/ca.c:2201-2266 | the status operand is padded and folded, and the row's type is reported, with failure for no row or an unknown type |
| CaStatus.StatusQueryFinds | openssl-3.6.0/apps/ca.c:2214-2236 | a status query finds the row that issuing, revoking and the responder find for that serial |
| CaStatus.IssuedIsGood | openssl-3.6.0/apps/ca.c:1905-1930 | once issued a certificate is answered as good, and no other answer changes |
| CaStatus.RevokedIsPublished | openssl-3.6.0/apps/ca.c:2128-2193 | once revoked, on file before or not, a certificate is answered as revoked with the time, reason and argument given exactly in 1950 to 2049, and no other answer changes |
| CaCommit.CertifyAll | openssl-3.6.0/apps/ca.c:930-1014 | the certify loop stops at the first error, skips what is declined, and advances the serial with each certificate |
| CaCommit.SerialsAreConsecutive | openssl-3.6.0/apps/ca.c:993-1014 | certificates, new rows and the advance of the serial are equal in number and the serials are consecutive |
| CaCommit.CertifyExact | openssl-3.6.0/apps/ca.c:930-1014 | the loop ends without error exactly when every request passes; then every signed request has its row at the end of the index, in order and with the next serial |
| CaCommit.CertifyStaysAhead | openssl-3.6.0/apps/ca.c:1816-1825 | with the serial ahead of the index, it stays ahead and no request meets its own serial |
| CaCommit.IssueCommitStaysAhead | openssl-3.6.0/apps/lib/apps.c:1896-1924 | after every write and rename of the commit, and after every rename that undoes one, also behind a failed rename of the attribute file, the serial on disk exceeds every serial in the index on disk |
| CaCommit.IndexCommitExact | openssl-3.6.0/apps/ca.c:1285-1297 | a commit of the index alone keeps the serial ahead if and only if it stops, or is undone, without the new index in place or its rows are below the serial |
| CaCommit.IndexCommitExactly | openssl-3.6.0/apps/lib/apps.c:1864-1929 | a commit of the index that ends leaves the new index and attributes; one that fails at a rename and is undone leaves all files as they were, unless the attribute file was missing and an older one comes back |
| CaCommit.OldAttributesReturn | openssl-3.6.0/apps/lib/apps.c:1917-1924 | that case: the older attribute file is in place afterwards |
| CaCommit.IssueCommitExactly | openssl-3.6.0/apps/lib/apps.c:1655-1697 | the same for an issuing run, where the new serial stays once the serial file is replaced |
| CaCommit.IssueRunWrites | openssl-3.6.0/apps/ca.c:1020-1118 | an issuing run that is not stopped advances the serial file by the certificates issued and appends their rows to the index file, exactly when every request passes, one is signed and the operator confirms; otherwise the disk is unchanged |
| CaCommit.UnconfirmedWritesNothing | openssl-3.6.0/apps/ca.c:1025-1038 | however it is stopped, an issuing run that does not get that far leaves the disk unchanged |
| CaCommit.RevokeRunWrites | openssl-3.6.0/apps/ca.c:1272-1297 | a revoking run that is not stopped writes the index exactly when the revocation succeeds, and never the serial |
| CaCommit.ExpireRunWrites | openssl-3.6.0/apps/ca.c:741-760 | an expiring run that is not stopped writes the index exactly when no valid row is unreadable and some row is due, and never the serial |
| CaCommit.EffectAheadExact | openssl-3.6.0/apps/ca.c:2129-2164 | a run of any kind, stopped anywhere, keeps the serial ahead if and only if a certificate it brings into the index, for whatever reason of revocation, has a serial below the one on file |
| CaCommit.RunsStayAhead | openssl-3.6.0/apps/ca.c:1020-1048 | over any number of runs, each stopped anywhere, the serial stays ahead, so a duplicate serial is never reported |
| CaCommit.RunsAheadExact | openssl-3.6.0/apps/ca.c:1020-1048 | the serial is ahead at every point between runs if and only if every run meets that condition |
| CaCommit.CertifyStopsAt | openssl-3.6.0/apps/ca.c:1816-1825 | a serial in the index is never passed by the certify loop, whatever the requests |
| CaCommit.ForeignSerialBlocks | openssl-3.6.0/apps/ca.c:2129-2164 | a concrete case: the next serial is added from outside, and no request is issued any more |
| CmsSigners.SignerOptions.Handle | openssl-3.6.0/apps/cms.c:623-761 | the effect of each option on the pending signer and key, the stacks and the parameter list, and the two refusals |
| CmsSigners.SignerOptions.AppendFinal | openssl-3.6.0/apps/cms.c:838-862 | the final signer is appended, or refused exactly when no signer or no certificate for the last key was given |
| CmsSigners.SignerOptions.HandleAll | openssl-3.6.0/apps/cms.c:623-862 | options are accepted exactly when every slot gets its certificate; the stacks are then those of the slots, and each signer's parameters are found by its position |
| CmsSigners.SignerOptions.FindParams | openssl-3.6.0/apps/cms.c:1229-1245 | the signing loop finds the first node of a signer |
| CmsSigners.LookupParams | openssl-3.6.0/apps/cms.c:729-761 | that node holds exactly the signer's parameters, because node indices strictly increase |
| CmsSigners.StacksPairUp | openssl-3.6.0/apps/cms.c:623-665 | stacks of equal length; a signer without a key is paired with its own file |
| CmsSigners.NothingIsLost | openssl-3.6.0/apps/cms.c:623-761 | all certificates, all keys and all parameters are kept in the order given |
| CmsSigners.ParamStaysInSlot | openssl-3.6.0/apps/cms.c:729-761 | a parameter goes to the signer pending when it was given and stays there |
| CmsSigners.KeyGoesToWaiting | openssl-3.6.0/apps/cms.c:648-665 | a key ends with the certificate that was waiting for one when it was given, and otherwise starts the next signer |
| CmsSigners.SignerGoesToWaiting | openssl-3.6.0/apps/cms.c:623-642 | a certificate ends with the key that was waiting for one, and otherwise starts the next signer |
| CmsSigners.AcceptedExact | openssl-3.6.0/apps/cms.c:838-862 | options are accepted exactly when all can be read, there is a signer, and none lacks its certificate |
| CmpSections.ItemReader.PrevItem | openssl-3.6.0/apps/cmp.c:2581-2611 | one item goes into the buffer, cut to forty characters, and the position moves strictly left |
| CmpSections.ItemReader.ConfGetString | openssl-3.6.0/apps/cmp.c:2614-2626 | the value of the first item from the right that yields one |
| CmpSections.ItemsOfList | openssl-3.6.0/apps/cmp.c:2581-2611 | repeated calls yield the names in reverse order, with one empty item first when the list ends in a separator |
| CmpSections.FirstValueExact | openssl-3.6.0/crypto/conf/conf_api.c:66-96 | the value found is that of the first item that yields one, from its own section, for ENV the environment, else the section default |
| CmpSections.LookupExact | openssl-3.6.0/crypto/conf/conf_api.c:66-96 | the lookup is the documented one exactly when the default section does not interfere |
| CmpSections.DefaultHidesSection | openssl-3.6.0/apps/cmp.c:2614-2626 | a concrete list where it interferes |
| ConfText.PrintEscapedValue | openssl-3.6.0/apps/configutl.c:20-68 | the loop prints the escaped value |
| ConfText.PrintedIsOneLine | openssl-3.6.0/apps/configutl.c:34-45 | no raw newline, carriage return, tab or backspace is printed |
| ConfText.PrintedEdges | openssl-3.6.0/apps/configutl.c:46-62 | the printed value has no white space at its ends and no lone backslash at the end |
| ConfText.PrintedIsEscaped | openssl-3.6.0/apps/configutl.c:25-33 | no comment sign, dollar sign or single quote is printed unescaped |
| ConfText.PrintedLineReadsBack | openssl-3.6.0/crypto/conf/conf_def.c:605-640 | for every name and value, the parser reads a printed line back as that name and value if and only if the name is one a line can assign to and the value has no backquote |
| ConfText.ParsedNameIsReadable | openssl-3.6.0/crypto/conf/conf_def.c:931-943 | every name the parser takes from any line is such a name, escaped characters and the empty name included |
| ConfText.PrintedValueReadsBack | openssl-3.6.0/crypto/conf/conf_def.c:642-790 | the same for the value alone |
| ConfText.PrintedValuesDiffer | openssl-3.6.0/apps/configutl.c:20-68 | a reader without backquotes recovers every value, so different values never print alike |
| ConfText.BackquoteIsLost | openssl-3.6.0/crypto/conf/conf_def.h:55-55 | a concrete value that is lost |
| PacketFrames.SplitFrames | scripts/generate_packet_diagram.py:214-237 | the loop splits at separators outside brackets and drops blank segments |
| PacketFrames.SplitExact | scripts/generate_packet_diagram.py:214-237 | the result is the stripped, non-blank pieces between the separators outside brackets, taken from left to right |
| PacketFrames.DepthExact | scripts/generate_packet_diagram.py:229-232 | the depth is the number of brackets still open: the greatest balance of a last part of the text |
| PacketFrames.StripExact | scripts/generate_packet_diagram.py:221-236 | stripping takes off the blanks at both ends and nothing else |
| PacketFrames.ExtractBracedPayload | scripts/generate_packet_diagram.py:335-351 | the stripped text between the first opening brace and the one that closes it |
| PacketFrames.BracedExact | scripts/generate_packet_diagram.py:335-351 | a payload is found if and only if a first brace and one that closes it exist, and is the text between them |
| PacketFrames.SplitJoin | scripts/generate_packet_diagram.py:214-237 | splitting joined frames gives them back exactly when none holds a separator outside brackets and none but the last ends in a space and a bar |
| PacketFrames.SeparableExact | scripts/generate_packet_diagram.py:214-237 | that condition on the characters of the frames |
| PacketFrames.PrintedFramesReadBack | scripts/generate_packet_diagram.py:198-237 | printing frames in braces inside any line, then extracting and splitting, gives them back under that exact condition |
| PacketPairing.NormalizeTimes | scripts/generate_packet_diagram.py:354-371 | every event moves by the same offset, also when lists share objects, and nothing moves without client events |
| PacketPairing.TimeLineStarts | scripts/generate_packet_diagram.py:354-371 | afterwards a client event is at the hello time, or at zero without one, and no client event is earlier |
| PacketPairing.AssignDirections | scripts/generate_packet_diagram.py:385-396 | each event gets the direction of its role and kind |
| PacketPairing.MatchReceive | scripts/generate_packet_diagram.py:423-434 | the first unused receive with the same number, else the first unused one, is marked and returned |
| PacketPairing.PairPackets | scripts/generate_packet_diagram.py:399-420 | the flows of both directions sorted by time; what each flow holds is FlowExact |
| PacketPairing.FlowExact | scripts/generate_packet_diagram.py:399-434 | of the result of pairing: in each direction the k-th flow has the k-th send in time; it has a receive exactly when there are more than k, and it is the earliest unused one with the number of the send, or else the earliest unused one |
| PacketPairing.PairedByDirection | scripts/generate_packet_diagram.py:399-420 | the flows of one direction come in the order of their sends, whatever the other direction holds |
| PacketPairing.SortByTimeExact | scripts/generate_packet_diagram.py:412-413 | sends and receives are sorted by rising time, and simultaneous ones keep their order |
| PacketPairing.OneFlowPerSend | scripts/generate_packet_diagram.py:399-420 | exactly one flow for each sent packet, in time order |
| PacketPairing.ReceivesOnce | scripts/generate_packet_diagram.py:399-420 | in each direction the flows hold received packets of that direction, none more often than received, as many as sends or receives, whichever are fewer |
| PacketPairing.ReceivesConserved | scripts/generate_packet_diagram.py:412-418 | the receives in the flows and the unused ones together are all receives |
| PacketPairing.ChoicesInjective | scripts/generate_packet_diagram.py:414-418 | no receive is used twice |
| PacketPairing.MatchedWhilePossible | scripts/generate_packet_diagram.py:412-418 | the k-th send is matched exactly when there are more than k receives, so as many match as both sides allow |
| PacketPairing.PrefersEqualNumber | scripts/generate_packet_diagram.py:424-429 | a send gets an equal-numbered receive whenever one is left |
| PacketPairing.FlowsFollowChoices | scripts/generate_packet_diagram.py:414-418 | every flow holds the receive chosen for its send |
| PacketPairing.PairingIgnoresCommonShift | scripts/generate_packet_diagram.py:354-371 | shifting all time stamps by the same amount pairs the same packets at the same times |
| Outliers.KeepsAtLeastHalf | scripts/run_benchmarks.py:1827-1839 | at least half of any list is kept, and kept and removed add up |
| Outliers.KeptExactly | scripts/run_benchmarks.py:1827-1839 | of at least four samples exactly those are kept that lie within one and a half interquartile ranges of the inclusive quartiles |
| Outliers.KeepsIgnoresOrder | scripts/run_benchmarks.py:1830-1836 | which values are kept does not depend on the order of the samples |
| Outliers.KeptIgnoresOrder | scripts/run_benchmarks.py:1836-1838 | reordering the samples only reorders what is kept |
| Outliers.MaskIgnoresUnit | scripts/run_benchmarks.py:1830-1836 | the same samples are kept after any positive scaling and any shift |
| CpuLayout.CollectCores | scripts/select_physical_cpus.py:116-148 | the loop collects each sibling group once, without the group of CPU 0, sorted by first CPU |
| CpuLayout.CollectedCores | scripts/select_physical_cpus.py:116-148 | on partitioned machines the cores are whole, sorted, without CPU 0, none is missing, and each has its node and id and is skipped exactly when one of its CPUs is |
| CpuLayout.KernelGroupsPartition | scripts/select_physical_cpus.py:75-81 | sibling lists that agree give groups that partition the CPUs, even with offline CPUs listed |
| CpuLayout.OrderByNuma | scripts/select_physical_cpus.py:238-250 | preferred cores first, order otherwise kept |
| CpuLayout.OrderedByPreference | scripts/select_physical_cpus.py:259-261 | a permutation, strictly ordered by skipped, preferred node, lowest CPU |
| CpuLayout.SelectPairs | scripts/select_physical_cpus.py:253-267 | the layout of the first cores in that order, with both errors exactly when they apply |
| CpuLayout.SelectedCores | scripts/select_physical_cpus.py:253-267 | the ordered cores are whole, pairwise disjoint and without CPU 0 |
| CpuLayout.LayoutFromPairs | scripts/select_physical_cpus.py:186-206 | the CPU set without repetitions and the roles |
| CpuLayout.RoleCpuIds | scripts/run_benchmarks.py:771-799 | the CPUs of a role without repetitions |
| CpuLayout.RolesReadBack | scripts/run_benchmarks.py:771-799 | with two cores the roles read back as whole disjoint cores inside the CPU set; with one core both get that core |
| AlgorithmMatrix.ResolveAvailable | scripts/run_benchmarks.py:1354-1368 | wanted names resolved in any letter case, each once; every other wanted name is reported missing as often as it is wanted |
| AlgorithmMatrix.FindIsLast | scripts/run_benchmarks.py:1354-1368 | of available names that differ only in case the last one is taken |
| AlgorithmMatrix.BuildAlgorithmMatrix | scripts/run_benchmarks.py:1346-1465 | the loop nest builds the filtered product, which MatrixExact and MatrixOrder describe, and mode one its single combination, with each error where it belongs |
| AlgorithmMatrix.OneExact | scripts/run_benchmarks.py:1411-1424 | mode one succeeds exactly when both names are given, offered in some letter case and classified, and spells them as given where that is offered |
| AlgorithmMatrix.MatrixExact | scripts/run_benchmarks.py:1431-1462 | no repetitions in any letter case, and exactly the pairs that take part, are in both lists of the mode and, in mode pqc, have no hybrid, in mode pqc-level, are both post-quantum and of one NIST level |
| AlgorithmMatrix.MatrixOrder | scripts/run_benchmarks.py:1431-1441 | the combinations come in the order of the loops: by key exchange, wanted before classic, and for each by signature in the same way |
| AlgorithmMatrix.MatrixBuilds | scripts/run_benchmarks.py:1393-1409 | building succeeds exactly when all names that take part are classified |
| AlgorithmMatrix.MatrixLevels | scripts/run_benchmarks.py:1444-1462 | the filter fails exactly in mode pqc-level, when two post-quantum names take part that the mode lists and one has no level |
| AlgorithmMatrix.MatrixSpelling | scripts/run_benchmarks.py:1400-1409 | every combination is spelled as the build offers it and carries its categories |
| Amplification.CalculateServerAmplification | scripts/run_packet_count.py:221-259 | the sums over the lines before the first received Handshake packet, and their ratio |
| Amplification.PhaseExact | scripts/run_packet_count.py:236-242 | those lines end right before the first line that reports a received Handshake packet |
| Amplification.LimitExact | scripts/run_packet_count.py:254-257 | the reported factor is at most 3 (section 8.1 of RFC 9000) exactly when nothing was granted or the balance is not negative |
| Amplification.NeverNegativeStaysWithinLimit | scripts/run_packet_count.py:236-257 | a balance that never goes negative keeps the factor within the limit |
| Amplification.LaterLinesDoNotCount | scripts/run_packet_count.py:237-242 | nothing after that packet changes the result |

## Left out

- Library internals of X509, ASN.1 encodings, digests and signatures: only the contracts above are used.
- `-create_serial` and random serials: serial order holds only for serials from the serial file.
- The CRL number file and the copies of certificates in the output directory: they carry no part of the properties above. Of `index.txt.attr` only the renames matter.
- String-type checks of subject entries, validity dates and extensions in `do_body`: they decide before the modelled part whether a request is unusable.
- PacketPairing.PairPackets: works on the values of the events after their fields were updated; the updates themselves are the two methods on event objects.
- CmsSigners: encryption, where parameters belong to recipients, and the other operations that do not collect signers.
- ConfText.PrintedLineReadsBack: one line already read into the buffer; section headers, variables, includes and the joining of buffer pieces are not part of it.
- `_expand_cpu_list`, `_describe_cpuset`, `extract_balanced_section` and the frame formatters: they expand a CPU list such as `0-3,8`, summarise a CPU set for the report, cut out a bracketed section and print a frame.
- Floating-point rounding: statistics, times and ratios are real numbers.
- Regular expressions, Mermaid output, process control, network emulation and host tuning.
- The QUIC stack and the post-quantum provider.
