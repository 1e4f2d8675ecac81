# Xapian database checker and Omega indexer helpers, modelled in Dafny

This project models two sequential parts of Xapian:

- **`Xapian::Database::check`** and its helper `reserve_doclens`
  (`xapian-core/backends/dbcheck.cc`). This is the dispatcher behind
  `xapian-check`. It works as follows:
  - It masks the options when there is no output stream.
  - It recognises a chert or glass database directory by its marker file,
    and rejects the retired flint, brass and quartz formats.
  - Given a single table instead, it normalises the table's path.
  - It sizes the document-length scratch vector.
  - It runs the per-backend table loops, adding up the error count.
  - It walks the glass changeset files.
  - It repairs the chert version file only when the table loop found no
    errors.
- **Helpers of the Omega file indexer**
  (`xapian-applications/omega/index_file.cc`):
  - the seen-document tracker (`mark_as_seen`, `index_handle_deletion`);
  - the CSV sample generator;
  - the `pdfinfo` field parser and its line loop;
  - the MIME-type filter lookup with its wildcard fallbacks;
  - the `%%`/`%f`/`%t` expansion of filter command templates;
  - the rules that build the formfeed-trimmed text, the leafname stem, the
    date terms and the extension term.

## How the model is organised

- **The file system** is a set of existing paths. They are compared after
  runs of `/` are collapsed, as the operating system does.
- **Collaborators** are oracles, packed into an `Env` value. These include
  opening a database, reading a version file, checking a changeset or a
  table, and allocating memory.
- **Compile-time backend switches** are booleans in `Env`.
- **What the checker does** is recorded as a trace of events, in order:
  - the text written to the output stream;
  - table checks, changeset checks and version-file reads and repairs.
- **Exceptions** become an `Outcome`: an error count, or the error raised.

Where the source updates state in place, the model is imperative:
- the option mask, the suffix trimming, the table-name loop and the table
  loops of `Database::check`;
- the `updated` vector and counter of the seen tracker (class
  `OmegaSeen.SeenTracker`);
- the CSV sampling loop;
- the `pdfinfo` loops;
- the `%` expansion loop;
- the extension-term loop.

Each method is proved against a specification function, and the lemmas
beside it state what that function promises.

- `common.dfy`: `Option` and the `std::string` searches that both parts use.
- `dbcheck.dfy`: module `DbCheck`.
- `omega_seen.dfy`, `omega_csv.dfy`, `omega_pdfinfo.dfy`, `omega_filter.dfy`,
  `omega_terms.dfy`: modules `OmegaSeen`, `OmegaCsv`, `OmegaPdfinfo`,
  `OmegaFilter` and `OmegaTerms`.

## Model

| member | source | states |
|---|---|---|
| Common.LowerAscii | xapian-core/backends/dbcheck.cc:264-266 | the result has the input's length, and each character is that character with only ASCII capitals made lower case |
| Common.LowerAsciiIdempotent | xapian-core/backends/dbcheck.cc:264-266 | lower-casing twice is lower-casing once; a string without capitals is unchanged; the result has no capitals |
| Common.FindLast | xapian-core/backends/dbcheck.cc:254 | find_last_of for one character: the index returned holds the character and none after it does; no index is returned only when the character does not occur |
| Common.FindFrom | xapian-applications/omega/index_file.cc:528 | find from an index: the result is at or after the start, and a result inside the string holds the character |
| Common.FindFromFirst | xapian-applications/omega/index_file.cc:528 | no occurrence lies between the start and the index find returns |
| DbCheck.EffectiveOptions | xapian-core/backends/dbcheck.cc:89-93 | with an output stream the options are unchanged; without one only the DBCHECK_FIX bit can remain, and that bit is kept as given |
| DbCheck.DocLengths.constructor | xapian-core/backends/dbcheck.cc:94 | the document-length vector starts with no reserved capacity |
| DbCheck.DoclensTooBigMeansOverLimit | xapian-core/backends/dbcheck.cc:58-59 | the test last_docid >= 0x40000000 / sizeof(termcount) holds exactly when last_docid + 1 four-byte counts would take more than 1 GiB |
| DbCheck.ReserveDoclens | xapian-core/backends/dbcheck.cc:55-81 | at most one advisory line, and one exactly when there is an output stream and the vector is too big or the allocation fails; bad_alloc and length_error are never passed on; capacity grows to last_docid + 1 on success and is unchanged otherwise |
| DbCheck.CallsOfAppend | xapian-core/backends/dbcheck.cc:131-158 | the table calls in two stretches of a trace are those of the first followed by those of the second |
| DbCheck.SumErrorsSnoc | xapian-core/backends/dbcheck.cc:156 | adding a table's count after the others is the running total plus that count |
| DbCheck.ChertSumSnoc | xapian-core/backends/dbcheck.cc:137-157 | one more chert table adds its count to the running total, or nothing when it is a lazily created table that is absent |
| DbCheck.SumErrorsZero | xapian-core/backends/dbcheck.cc:156-160 | the table loop adds nothing exactly when every table check returned 0, which is when errors still equals its value from before the loop |
| DbCheck.ChertLoopSnoc | xapian-core/backends/dbcheck.cc:135-158 | one more table in the loop adds its call, or nothing when it is skipped, and its output after the earlier ones |
| DbCheck.ChertLoopCalls | xapian-core/backends/dbcheck.cc:135-158 | the table checks in the chert loop's trace are exactly the calls for the tables not skipped, in table order |
| DbCheck.CheckChertTable | xapian-core/backends/dbcheck.cc:137-157 | a lazily created table (any but record and postlist) whose .DB file is absent adds 0 and is reported as "Not present." (termlist) or "Lazily created, and not yet used."; any other table adds what its check returns |
| DbCheck.CheckChertTables | xapian-core/backends/dbcheck.cc:131-158 | the loop over record, termlist, postlist, position, spelling and synonym adds the sum of the counts of the tables not skipped, and its trace is theirs in order |
| DbCheck.OpenChert | xapian-core/backends/dbcheck.cc:106-122 | a failed open adds exactly 1, leaves the last docid at the all-ones sentinel and the revision at 0, and reserves nothing; a successful open takes both from the database and reserves through reserve_doclens; the output is only text, and none without a stream |
| DbCheck.CallsOfNone | xapian-core/backends/dbcheck.cc:106-122 | a stretch of trace without table checks contributes no table calls |
| DbCheck.JoinCalls | xapian-core/backends/dbcheck.cc:103-168 | the opening message and the version-file events add no table calls to the chert trace |
| DbCheck.JoinVersionEvents | xapian-core/backends/dbcheck.cc:103-168 | version-file events in the chert trace come only from the repair step |
| DbCheck.JoinSilent | xapian-core/backends/dbcheck.cc:103-168 | with a silent table loop the whole chert trace is silent |
| DbCheck.CheckChertDirectory | xapian-core/backends/dbcheck.cc:103-168 | errors is the open penalty plus the sum of the table counts; the table checks are the loop's calls in order; nothing is written without a stream; the version file is read and checked exactly when DBCHECK_FIX is set and the loop added no errors, and recreated exactly when, in addition, that read fails |
| DbCheck.ChertTrace | xapian-core/backends/dbcheck.cc:103-168 | the table checks of the chert trace are the loop's calls; it is silent without a stream; the version file is read exactly when DBCHECK_FIX is set and the tables were clean, and recreated exactly when, in addition, it is not valid |
| DbCheck.ChertLoopNoVersionEvents | xapian-core/backends/dbcheck.cc:135-158 | the chert loop only writes text and checks tables, and writes nothing without a stream |
| DbCheck.DecimalRoundTrip | xapian-core/backends/dbcheck.cc:194 | the decimal text of a revision number reads back as that number |
| DbCheck.ChangesFileInjective | xapian-core/backends/dbcheck.cc:192-194 | different revisions give different changeset file names |
| DbCheck.ChangesetRangeMembers | xapian-core/backends/dbcheck.cc:191-196 | a changeset file is checked exactly when its revision lies between 1 and the current revision and the file exists |
| DbCheck.ChangesetRangeDescending | xapian-core/backends/dbcheck.cc:191 | changeset files are checked from the highest revision down |
| DbCheck.ChangesetEvents | xapian-core/backends/dbcheck.cc:196 | one changeset check event per file, in order |
| DbCheck.FirstFailing | xapian-core/backends/dbcheck.cc:196 | the first changeset whose check throws, with all before it passing, or none when all pass |
| DbCheck.CheckChangesets | xapian-core/backends/dbcheck.cc:189-197 | the loop checks the existing changeset files from the current revision down to 1 and stops at the first that throws, passing its error on |
| DbCheck.ChangesetStep | xapian-core/backends/dbcheck.cc:191-196 | one turn at revision r either passes, extending the checked files to revision r, or finds the first failing changeset of the whole walk, whose check is then the last event |
| DbCheck.ChangesetFailureFound | xapian-core/backends/dbcheck.cc:191-196 | an existing changes file that fails, below files that all passed, is the first failure of the walk and the last file checked |
| DbCheck.ChangesetRangePrefix | xapian-core/backends/dbcheck.cc:191-197 | the files checked down to a higher stop are a prefix of those checked down to a lower one |
| DbCheck.ChangesetFirstFailingExtends | xapian-core/backends/dbcheck.cc:191-197 | once a changeset check throws, checking further down does not change which one stops the walk |
| DbCheck.GlassCalls | xapian-core/backends/dbcheck.cc:205-213 | the glass loop checks docdata, termlist, postlist, position, spelling and synonym, in that order, all in the database directory, with the version's revision and last docid |
| DbCheck.TableEvents | xapian-core/backends/dbcheck.cc:209-213 | one table check event per call, in order |
| DbCheck.TableEventsCalls | xapian-core/backends/dbcheck.cc:209-213 | the table calls of those events are the calls themselves |
| DbCheck.CheckGlassTables | xapian-core/backends/dbcheck.cc:205-213 | the glass loop adds the sum of the six table counts and its trace is the six calls in order |
| DbCheck.CheckGlassRevision | xapian-core/backends/dbcheck.cc:189-213 | after the version file is read: a failing changeset stops the check with its error and reserves nothing; otherwise the count added is the sum of the six glass tables, the trace is the changesets, the reserve advice if any and the six table checks, and the vector is reserved exactly when reserve_doclens gives no advice |
| DbCheck.CheckGlassVersion | xapian-core/backends/dbcheck.cc:187-213 | given the opening events and the open penalty, equals GlassDirectory (read failure raised; first failing changeset raised; otherwise penalty plus the table sum), and the vector grows to last_docid + 1 exactly when GlassReservesRoom holds: the version reads, no changeset throws and reserve_doclens succeeds |
| DbCheck.GlassDirectoryUnread | xapian-core/backends/dbcheck.cc:187-188 | a version file that cannot be read raises its error after the opening message and reserves nothing |
| DbCheck.GlassDirectoryThrows | xapian-core/backends/dbcheck.cc:189-197 | a changeset that throws raises its error, the trace ending with its check, and reserves nothing |
| DbCheck.GlassDirectoryCounts | xapian-core/backends/dbcheck.cc:199-213 | when every changeset passes the glass branch counts the open penalty plus the tables' errors |
| DbCheck.GlassDirectory | xapian-core/backends/dbcheck.cc:176-213 | definition of the glass branch as an outcome and a trace; GlassDirectoryCalls, GlassDirectorySilent, ChangesetFailureEndsCheck and GlassDirectoryUnread/Throws/Counts state what it promises |
| DbCheck.CheckGlassDirectory | xapian-core/backends/dbcheck.cc:176-213 | equals GlassDirectory: an open failure writes its message and costs 1; an unreadable version file or the first changeset that throws raises that error; otherwise the count is the open penalty plus the six glass tables' errors and the trace is the opening, the changeset checks, any reserve advice and the six table checks; the vector grows to last_docid + 1 exactly when the changesets pass and reserve_doclens gives no advice, and is otherwise unchanged |
| DbCheck.GlassDirectoryCalls | xapian-core/backends/dbcheck.cc:176-213 | the glass branch returns a count exactly when the version file reads and no changeset throws; then its table checks are the six glass calls and the count is the open penalty plus their sum; otherwise no table is checked |
| DbCheck.GlassTraceCalls | xapian-core/backends/dbcheck.cc:176-213 | messages and changeset checks add no table calls to the glass trace |
| DbCheck.GlassDirectorySilent | xapian-core/backends/dbcheck.cc:176-213 | without an output stream the glass branch writes nothing |
| DbCheck.ChangesetFailureEndsCheck | xapian-core/backends/dbcheck.cc:189-197 | a changeset check that throws is the last event and its error is raised; every earlier changeset check passed |
| DbCheck.FailingChangesetLast | xapian-core/backends/dbcheck.cc:191-196 | the events up to the first failing changeset end with its check and every earlier changeset check passed |
| DbCheck.StripTableSuffix | xapian-core/backends/dbcheck.cc:231-241 | at most one of ".", ".DB" or ".glass" is removed, leaving a prefix of the path; ".DB" selects chert and ".glass" selects glass, each exactly when that suffix ends the path and no earlier test matched |
| DbCheck.ResolveBackend | xapian-core/backends/dbcheck.cc:243-252 | a suffix decides the backend; without one, chert exactly when the .DB file exists, glass exactly when only the .glass file exists, and none (not a database) exactly when neither exists |
| DbCheck.LeafStart | xapian-core/backends/dbcheck.cc:254-259 | the leafname starts just after the last '/', or at 0 when there is none, and holds no '/' |
| DbCheck.TableNameFrom | xapian-core/backends/dbcheck.cc:261-266 | the table name is the rest of the path from the leaf start with ASCII letters lower-cased |
| DbCheck.TrimTableName | xapian-core/backends/dbcheck.cc:231-241 | the in-place trimming gives the stripped name and the backend its suffix selects |
| DbCheck.CheckOneGlassTable | xapian-core/backends/dbcheck.cc:268-279 | one glass table is checked in its directory with the version file read there and the sentinel last docid |
| DbCheck.CheckOneChertTable | xapian-core/backends/dbcheck.cc:280-298 | equals SingleChertTable with the same probe choice: with asWritten the flint and brass markers are probed at dir + "/" + marker as the source does, otherwise beside the table; a marker found raises its retired-backend error, a disabled chert raises its own, and otherwise one chert check of the stripped path is made with no revision and the sentinel last docid |
| DbCheck.CheckSingleTable | xapian-core/backends/dbcheck.cc:228-299 | equals SingleTableWith for the probe chosen: no suffix and neither the .DB nor the .glass file gives "Not a Xapian database or database table"; otherwise the leafname, lower-cased, is checked as one glass table in its directory or one chert table at the stripped path; with asWritten this is the source as written, with the root-directory probe |
| DbCheck.TableSuffixSpellings | xapian-core/backends/dbcheck.cc:228-252 | "foo." checks the same as "foo"; "foo.DB" checks the same when foo.DB exists; "foo.glass" checks the same when only foo.glass exists |
| DbCheck.StripSuffixes | xapian-core/backends/dbcheck.cc:231-241 | "." and ".DB" and ".glass" each come off a name that carries none of them, ".DB" selecting chert and ".glass" glass |
| DbCheck.SingleTableCall | xapian-core/backends/dbcheck.cc:254-298 | "not a database" is raised exactly when neither the .DB nor the .glass file is found; a single-table check that returns makes exactly one table check, of the backend ResolveBackend chose, and the count is assigned from it; the table name is the lower-cased leafname; the last docid is the sentinel and the options are passed through; chert gets the stripped path and no revision, glass the directory and the version's revision; an error makes no call |
| DbCheck.SingleGlassCall | xapian-core/backends/dbcheck.cc:268-279 | for a table that resolves to glass: never "not a database"; a returned count comes from exactly one glass table check in the directory of the path (directory plus leafname is the path), after the version file there was read, with that version's revision, the lower-cased leafname, the sentinel last docid and the options given; an error makes no call |
| DbCheck.SingleChertCall | xapian-core/backends/dbcheck.cc:280-298 | for a table that resolves to chert: never "not a database"; a returned count comes from exactly one chert table check named by the path without its suffix, with no revision, the lower-cased leafname, the sentinel last docid and the options given; an error makes no call |
| DbCheck.RetiredMarkerRejects | xapian-core/backends/dbcheck.cc:280-290 | for a table resolved as chert, with either probe: the flint error is raised exactly when the flint probe finds a file; with no flint marker, the brass error exactly when the brass probe does; either error comes with no table checked |
| DbCheck.SingleTableWith | xapian-core/backends/dbcheck.cc:228-299 | definition of the single-table branch, parametrised by the marker probe: suffix trimming, the .DB-before-.glass lookup, the lower-cased leafname, and a glass or chert table check; its properties are stated by SingleTableCall, RetiredMarkerRejects and TableSuffixSpellings |
| DbCheck.SingleTable | xapian-core/backends/dbcheck.cc:228-299 | the single-table branch with the corrected probe beside the table (the corrected half of the finding below) |
| DbCheck.SingleChertTable | xapian-core/backends/dbcheck.cc:280-298 | definition of one chert table check: flint marker, then brass marker, then the chert build switch, then one check with no revision and the sentinel last docid; asWritten selects the dir + "/" + marker probe of the source |
| DbCheck.SingleGlassTable | xapian-core/backends/dbcheck.cc:268-279 | definition of one glass table check: the glass build switch, then the version file read in the table's directory (its failure raised), then one check with that revision and the sentinel last docid |
| DbCheck.MarkerProbeBesideTable | xapian-core/backends/dbcheck.cc:283-290 | the corrected marker probe names the marker file in the table's own directory |
| DbCheck.CollapseNoSlash | xapian-core/backends/dbcheck.cc:283 | a name without '/' (with or without one leading '/') is its own collapsed path |
| DbCheck.PostlistInCurrentDirectory | xapian-core/backends/dbcheck.cc:231-259 | "postlist.DB" is a chert table in the current directory |
| DbCheck.RootProbeCounterexample | xapian-core/backends/dbcheck.cc:283-286 | for "postlist.DB" next to a flint marker in the current directory, the probe as written misses the marker and checks the table, while the corrected probe raises the flint error |
| DbCheck.PostlistAsChertTable | xapian-core/backends/dbcheck.cc:228-298 | "postlist.DB" is checked as the chert table postlist with an empty directory |
| DbCheck.RootProbesFound | xapian-core/backends/dbcheck.cc:283-290 | with the marker only in the current directory, the probes as written find neither marker and the corrected probe finds flint |
| DbCheck.RootProbeName | xapian-core/backends/dbcheck.cc:283 | with an empty directory the probe as written names the root "/" + marker, and the corrected one names the marker itself |
| DbCheck.RootMarkerLeaf | xapian-core/backends/dbcheck.cc:283 | the probe as written for a table without a directory has its leafname after the leading '/' |
| DbCheck.CollapseExtraSlash | xapian-core/backends/dbcheck.cc:283 | a doubled '/' after a directory ending in '/' collapses away |
| DbCheck.MarkerProbesAgree | xapian-core/backends/dbcheck.cc:283-290 | when the directory is not empty, the probe as written and the corrected probe find the same file |
| DbCheck.ChertCallsArguments | xapian-core/backends/dbcheck.cc:137-157 | every chert loop call is for a chert table of the loop, at path/table, with the options and last docid of the loop and the revision read when the database was opened (a revision written back by a table check is not modelled, see Left out) |
| DbCheck.ChertOptionsPassed | xapian-core/backends/dbcheck.cc:156 | every chert table check gets the (masked) options |
| DbCheck.GlassOptionsPassed | xapian-core/backends/dbcheck.cc:211 | every glass table check gets the (masked) options, and without a stream the glass branch writes nothing |
| DbCheck.SingleTableOptionsPassed | xapian-core/backends/dbcheck.cc:276-297 | the single table check gets the options, and that branch writes nothing |
| DbCheck.Check | xapian-core/backends/dbcheck.cc:86-302 | masked options reach every table check; nothing is written without a stream; a chert marker wins over a glass one; chert is the open penalty plus the loop's sum, and its version file is read exactly when the effective options ask for a fix and no table had an error, and recreated exactly when it is also invalid; only with neither marker are the flint, brass and quartz markers tried, in that order, each raising its own message before any table is checked; otherwise a single table is checked; doclens is reserved only on the paths that call reserve_doclens successfully; the single-table case uses the corrected marker probe (SingleTable), see Left out |
| DbCheck.CheckChertDatabase | xapian-core/backends/dbcheck.cc:97-168 | the chert branch raises the feature error when chert is disabled; otherwise it counts the open penalty plus the loop's sum, its table checks are the loop's calls, and the vector is reserved only after a successful open without advice; the version file is read and checked exactly when fixing is asked for and no table had an error, and recreated exactly when, in addition, it is not valid |
| DbCheck.CheckGlassDatabase | xapian-core/backends/dbcheck.cc:170-213 | the glass branch raises the feature error when glass is disabled; otherwise it is the glass directory check and reserves exactly when that check reaches reserve_doclens and it succeeds |
| DbCheck.CheckOtherPath | xapian-core/backends/dbcheck.cc:215-299 | with no chert or glass marker the flint, brass and quartz markers are tried in that order, each raising its removal message with nothing checked; otherwise a single table is checked; options are passed on and nothing is written; the single-table case uses the corrected marker probe (SingleTable), see Left out |
| OmegaSeen.Decrement | xapian-applications/omega/index_file.cc:107 | the unsigned counter goes down by one and wraps from 0 to 2^32 - 1 |
| OmegaSeen.MarkSeen | xapian-applications/omega/index_file.cc:103-109 | the flags keep their length, and a change happens only at an in-range clear flag, which becomes set; MarkSeenChanges and MarkSeenIdempotent state the rest |
| OmegaSeen.MarkSeenIdempotent | xapian-applications/omega/index_file.cc:103-109 | marking a document seen twice is the same as marking it once |
| OmegaSeen.MarkSeenChanges | xapian-applications/omega/index_file.cc:103-109 | the state changes exactly when did < updated.size() and !updated[did]; then only updated[did] is set and the counter goes down by one; the vector keeps its size |
| OmegaSeen.LeastAtLeastExists | xapian-applications/omega/index_file.cc:1149-1155 | a set of docids with a member at or above did has a least such member, which skip_to reaches |
| OmegaSeen.SeenTracker.constructor | xapian-applications/omega/index_file.cc:209-216 | the counter starts at the document count; with deletion of removed documents the vector is resized to last_docid + 1 in unsigned 32-bit arithmetic, all entries clear, so at last_docid 0xFFFFFFFF it wraps to empty and no deletion pass will run; without deletion it is empty |
| OmegaSeen.SeenTracker.MarkAsSeen | xapian-applications/omega/index_file.cc:103-109 | the tracker's vector and counter change as MarkSeen says and the documents do not; marking an existing document keeps the counter equal to the number of existing unseen documents |
| OmegaSeen.SeenTracker.DeletionStep | xapian-applications/omega/index_file.cc:1148-1160 | at a clear flag: when no document is left at or after did the pass stops with nothing unseen left; a gap moves did to the next document; otherwise did is deleted and counted, and the pass stops when the counter reaches 0 with every unseen document deleted; the flags are unchanged |
| OmegaSeen.SeenTracker.HandleDeletion | xapian-applications/omega/index_file.cc:1137-1163 | exactly the existing documents that have a clear flag are deleted, so documents added during the run (ids past the flags) survive; after a deletion pass the counter is 0; with an empty vector nothing changes |
| OmegaSeen.SeenTracker.AddNewDocument | xapian-applications/omega/index_file.cc:426-431 | a document added during the run gets an id past the flags: the flags, the counter and the set of unseen documents stay as they were, and the tracker's invariant is kept |
| OmegaCsv.Utf8 | xapian-applications/omega/index_file.cc:358 | a code point is appended as 1 to 4 bytes, as one byte exactly when it is below 0x80, and multi-byte sequences hold no ASCII byte |
| OmegaCsv.Utf8HasNoSpace | xapian-applications/omega/index_file.cc:348-359 | a character that is not whitespace never adds a space byte |
| OmegaCsv.UnquoteEscaped | xapian-applications/omega/index_file.cc:335-345 | inside quotes, a field with each '"' doubled reads back as the field |
| OmegaCsv.QuotedFieldRoundTrip | xapian-applications/omega/index_file.cc:326-345 | a quoted field followed by any character other than '"' reads back as the field, that character (a comma turned into a space) and the rest |
| OmegaCsv.Unquote | xapian-applications/omega/index_file.cc:326-346 | definition of the quote and comma rules of the sampler's input; UnquoteEscaped and QuotedFieldRoundTrip state its round trip with CSV quoting |
| OmegaCsv.LastWordEnd | xapian-applications/omega/index_file.cc:354 | the last word end is inside the sample once set |
| OmegaCsv.LastWordEndIsSpace | xapian-applications/omega/index_file.cc:354-355 | a nonzero last word end points at the space written there |
| OmegaCsv.BytesSpacing | xapian-applications/omega/index_file.cc:348-360 | the sample never starts with a space and never has two adjacent spaces, and it ends in a space exactly when in_space is set |
| OmegaCsv.BytesPrefix | xapian-applications/omega/index_file.cc:323-360 | the sample of a prefix of the text is a prefix of the sample |
| OmegaCsv.FirstReach | xapian-applications/omega/index_file.cc:362 | the number of characters read when the sample first reaches sample_size lies within the text |
| OmegaCsv.Snoc | xapian-applications/omega/index_file.cc:348-360 | one more character appends its bytes (a single space for the first of a whitespace run), updates in_space and moves last_word_end to the sample size before a new space |
| OmegaCsv.SnocReach | xapian-applications/omega/index_file.cc:362 | the size test fires on a character exactly when it appends and brings the sample to sample_size |
| OmegaCsv.FirstReachSome | xapian-applications/omega/index_file.cc:362 | where truncation happens, the sample has just reached sample_size and had not before |
| OmegaCsv.FirstReachNone | xapian-applications/omega/index_file.cc:362 | a text that never triggers truncation yields a sample shorter than sample_size (or empty) |
| OmegaCsv.FirstReachExtends | xapian-applications/omega/index_file.cc:370 | input after the point of truncation does not move it |
| OmegaCsv.TruncationIgnoresRest | xapian-applications/omega/index_file.cc:370 | no more input is consumed after truncation: whatever follows gives the same result |
| OmegaCsv.NotReached | xapian-applications/omega/index_file.cc:323-372 | without truncation the result is the whole collapsed sample |
| OmegaCsv.ReachedAtEnd | xapian-applications/omega/index_file.cc:362-371 | truncation cuts the sample as it stood when it reached sample_size |
| OmegaCsv.CutShape | xapian-applications/omega/index_file.cc:362-371 | with sample_size < 3 the replace fails; otherwise the result is exactly sample_size bytes ending in "..." when the last word end is at or before sample_size/2, and else the text up to a space past sample_size/2 followed by " ..." |
| OmegaCsv.Cut | xapian-applications/omega/index_file.cc:362-371 | definition of the truncation replace; CutShape and CutSpacing state its length, ending and spacing |
| OmegaCsv.ReachedPrefix | xapian-applications/omega/index_file.cc:354-364 | at truncation, the sample is a prefix of the full sample of at least sample_size bytes, and a nonzero last word end is a space before sample_size |
| OmegaCsv.LastWordEndBefore | xapian-applications/omega/index_file.cc:354 | the last word end never lies in the bytes of the latest character |
| OmegaCsv.SampleShape | xapian-applications/omega/index_file.cc:313-373 | the sample is the whole collapsed text when shorter than sample_size; otherwise the first sample_size - 3 bytes plus "...", or the text up to a word end past sample_size/2 plus " ..."; never more than sample_size + 3 bytes |
| OmegaCsv.SampleSpacing | xapian-applications/omega/index_file.cc:348-371 | the final sample never starts with a space and never has two adjacent spaces |
| OmegaCsv.CutSpacing | xapian-applications/omega/index_file.cc:364-369 | truncating with "..." or " ..." keeps the sample free of leading and doubled spaces |
| OmegaCsv.ReadChar | xapian-applications/omega/index_file.cc:324-346 | reading one character applies the quote and comma rules: the characters read, if any, followed by the rest read from the new quote state, are the unquoted text |
| OmegaCsv.AddChar | xapian-applications/omega/index_file.cc:348-360 | adding a character updates sample, in_space and last_word_end as the specification does |
| OmegaCsv.Feed | xapian-applications/omega/index_file.cc:348-371 | adding a character and testing the size gives the final sample once sample_size is reached, and otherwise keeps the state in step |
| OmegaCsv.Truncate | xapian-applications/omega/index_file.cc:362-371 | the replace step gives the specified cut |
| OmegaCsv.Turn | xapian-applications/omega/index_file.cc:323-372 | one turn of the loop either ends with the specified sample or keeps the loop invariant, and always consumes input |
| OmegaCsv.GenerateSampleFromCsv | xapian-applications/omega/index_file.cc:313-373 | the loop computes the specified sample of the CSV text |
| OmegaCsv.CsvSample | xapian-applications/omega/index_file.cc:313-373 | definition of the sample: the unquoted text, whitespace squeezed and UTF-8 encoded, cut where it first reaches sample_size; SampleShape, SampleSpacing and TruncationIgnoresRest state what it promises |
| OmegaPdfinfo.SkipSpaces | xapian-applications/omega/index_file.cc:261-262 | the first index from the start that is not a space, with only spaces skipped |
| OmegaPdfinfo.PdfinfoValue | xapian-applications/omega/index_file.cc:257-266 | a value is given only by a line strictly longer than "field:" that starts with it; the value is not empty, has no leading space, and ends the line, perhaps before one '\r' |
| OmegaPdfinfo.PdfinfoRoundTrip | xapian-applications/omega/index_file.cc:257-266 | "field:", any spaces and a value, with or without a trailing '\r', give that value back |
| OmegaPdfinfo.PdfinfoNoValue | xapian-applications/omega/index_file.cc:263 | "field:" followed only by spaces, or by spaces and a lone '\r', gives no value, so out is left as it was |
| OmegaPdfinfo.ParsePdfinfoField | xapian-applications/omega/index_file.cc:257-266 | out becomes the line's value when it gives one and is otherwise unchanged |
| OmegaPdfinfo.ApplyLineFieldwise | xapian-applications/omega/index_file.cc:292-305 | dispatching on the first character is the same as trying every field name on every line |
| OmegaPdfinfo.ApplyLine | xapian-applications/omega/index_file.cc:292-305 | definition of the per-line dispatch on A, K, S and T; ApplyLineFieldwise states that it updates each field from its own name only |
| OmegaPdfinfo.LinesFrom | xapian-applications/omega/index_file.cc:282-291 | the output is split at newlines into lines that hold none |
| OmegaPdfinfo.LastValueIsLast | xapian-applications/omega/index_file.cc:282-306 | a field ends up with the value of the last line that gives one, or keeps its value when no line does |
| OmegaPdfinfo.ApplyAllLastWins | xapian-applications/omega/index_file.cc:282-306 | each of author, title, keywords and topic independently ends up with its last value |
| OmegaPdfinfo.GetPdfMetainfo | xapian-applications/omega/index_file.cc:272-310 | when pdfinfo fails the fields are unchanged; otherwise the line loop leaves them as the lines give them in order |
| OmegaFilter.FindFilter | xapian-applications/omega/index_file.cc:490-504 | the key found is in the table; an exact entry for the MIME type always wins, and any other key is used only when the type has no entry; with a "*" entry some key is always found |
| OmegaFilter.FirstIn | xapian-applications/omega/index_file.cc:489-503 | the first of a list of keys that the table has, with none before it there, or none at all |
| OmegaFilter.FindFilterFirstCandidate | xapian-applications/omega/index_file.cc:489-503 | the lookup takes the first key the table has from: the exact type; then, only if it has a '/', major/* and then */*; then * |
| OmegaFilter.Prepend | xapian-applications/omega/index_file.cc:531-574 | copied text leaves the substitution flags alone |
| OmegaFilter.Splice | xapian-applications/omega/index_file.cc:531-574 | a substitution already made stays made |
| OmegaFilter.Expand | xapian-applications/omega/index_file.cc:525-575 | a template that uses %t has had a substitution |
| OmegaFilter.ExpandSkip | xapian-applications/omega/index_file.cc:528 | text without % is copied as it is |
| OmegaFilter.ExpandNoPercent | xapian-applications/omega/index_file.cc:525-575 | a template without % expands to itself with nothing substituted |
| OmegaFilter.ExpandDoubled | xapian-applications/omega/index_file.cc:532-534 | a text with every % doubled expands back to the text, with nothing substituted: %% is % and the next character is not looked at again |
| OmegaFilter.DoubledPercentBeforeF | xapian-applications/omega/index_file.cc:532-534 | "%%f" stays the literal "%f" and is not a substitution |
| OmegaFilter.ExpandFirstPercent | xapian-applications/omega/index_file.cc:528-531 | the text before the first % is copied and the % with its character is expanded ahead of the rest |
| OmegaFilter.ExpandSubstitutes | xapian-applications/omega/index_file.cc:531-574 | after %-free text, %f becomes the escaped file name and %t the escaped temporary file name, neither rescanned, %% becomes %, and any other %x stays |
| OmegaFilter.ExpandTrailingPercent | xapian-applications/omega/index_file.cc:528-530 | a lone % at the end stays |
| OmegaFilter.ExpandStep | xapian-applications/omega/index_file.cc:528-531 | from any point, when the next % has a character after it, the expansion is the text up to that %, then that pair expanded, then the expansion of the rest |
| OmegaFilter.ExpandRestCopied | xapian-applications/omega/index_file.cc:528-530 | from any point, when no % with a character after it is left, the rest is copied with nothing substituted |
| OmegaFilter.ExpandPercentAt | xapian-applications/omega/index_file.cc:528-531 | the expansion from a %: a final % stays, and otherwise the pair is expanded before the rest |
| OmegaFilter.ExpandingEnd | xapian-applications/omega/index_file.cc:528-530 | when no % with a character after it is left, the command is the expansion |
| OmegaFilter.ExpandingPercent | xapian-applications/omega/index_file.cc:532-534 | erasing the second % of %% and resuming after the first keeps the loop invariant |
| OmegaFilter.ExpandingArgument | xapian-applications/omega/index_file.cc:535-570 | splicing the argument in for %f or %t and resuming after it keeps the loop invariant |
| OmegaFilter.ExpandingOther | xapian-applications/omega/index_file.cc:571-574 | skipping any other %x keeps the loop invariant |
| OmegaFilter.ReplaceAt | xapian-applications/omega/index_file.cc:537-545 | the resize, append_filename_argument, erase of the added space and re-append of the tail put the escaped argument in place of the two characters, and scanning resumes after it |
| OmegaFilter.SpliceArgument | xapian-applications/omega/index_file.cc:535-547 | putting the escaped argument in place of %f or %t and resuming after it keeps the loop invariant and shortens what is left to scan |
| OmegaFilter.SubstituteAt | xapian-applications/omega/index_file.cc:532-575 | the pair at the next % is dealt with so that the invariant is kept and less is left to scan; the temporary file is made at the first %t and named exactly when %t has been used |
| OmegaFilter.SubstituteNext | xapian-applications/omega/index_file.cc:528-531 | one turn of the loop either ends with the expansion, when no % with a character after it is left, or keeps the invariant and shortens what is left to scan |
| OmegaFilter.SubstituteCommand | xapian-applications/omega/index_file.cc:524-575 | the loop leaves the expanded template, whether %f or %t was substituted, and the temporary file name exactly when %t was used |
| OmegaFilter.PrepareByFirstCandidate | xapian-applications/omega/index_file.cc:489-522 | no filter applies exactly when the table has none of the candidate keys; a type is ignored only through the first candidate the table has, when its command is "false" |
| OmegaFilter.PlainCommandGetsFile | xapian-applications/omega/index_file.cc:576-579 | a template without % runs with the escaped file name appended, except "true", and reads from stdout |
| OmegaFilter.PercentFCommand | xapian-applications/omega/index_file.cc:535-579 | with one %f the file name goes where %f was and is not appended again |
| OmegaFilter.PrepareFilter | xapian-applications/omega/index_file.cc:489-579 | an empty command is "not installed", "false" ignores the type, and any other command is expanded and has the file name appended when nothing was substituted and it is not "true" |
| OmegaFilter.Prepare | xapian-applications/omega/index_file.cc:490-581 | definition of the filter step: no entry, an empty command (not installed), "false" (ignored with its key), or FilterCommand; PrepareByFirstCandidate states which entry decides |
| OmegaFilter.FilterCommand | xapian-applications/omega/index_file.cc:524-581 | definition of the command run: the expanded template with the file name appended when nothing was substituted and it is not "true", and the temporary file when %t was used; PlainCommandGetsFile and PercentFCommand state its two cases |
| OmegaTerms.TrimEnd | xapian-applications/omega/index_file.cc:956-957 | find_last_not_of('\f') plus one: all after it are formfeeds and the character before it is not; string::npos plus one is 0 |
| OmegaTerms.TrimFormfeeds | xapian-applications/omega/index_file.cc:956-958 | the result is the longest prefix of the text that does not end in a formfeed |
| OmegaTerms.TrimDropsFormfeeds | xapian-applications/omega/index_file.cc:956-958 | text followed by formfeeds trims back to the text, and text made only of formfeeds becomes empty |
| OmegaTerms.TrimFormfeedsIdempotent | xapian-applications/omega/index_file.cc:956-958 | trimming twice is trimming once |
| OmegaTerms.LeafStemNoDot | xapian-applications/omega/index_file.cc:1036-1039 | a leafname without a dot is unchanged |
| OmegaTerms.LeafStemLastDot | xapian-applications/omega/index_file.cc:1036-1039 | a leafname is cut at its last dot exactly when the extension after it is at most max_ext_len long, and is otherwise unchanged |
| OmegaTerms.LeafStem | xapian-applications/omega/index_file.cc:1036-1039 | the leafname is either kept or cut to a prefix that stops at a dot with no dot after it, leaving an extension of at most max_ext_len |
| OmegaTerms.Resize | xapian-applications/omega/index_file.cc:1059 | std::string::resize: the result has the new length, keeps the old characters and pads with NULs |
| OmegaTerms.DateTermsTruncate | xapian-applications/omega/index_file.cc:1057-1064 | the month term is 7 and the year term 5 characters long; the year term is Y with the four characters after the month term's M; for a date of at least six characters the month term is M and its first six, and the year term Y and its first four |
| OmegaTerms.MakeDateTerms | xapian-applications/omega/index_file.cc:1057-1064 | the day term is D + date; the month term is 7 characters, M then the date's first six padded with NULs; the year term is 5 characters, Y then the month term's next four |
| OmegaTerms.ExtTerm | xapian-applications/omega/index_file.cc:1103-1109 | the extension term is E followed by the extension with only ASCII capitals made lower case |

## Left out

- The file system and operating-system path handling are a set of paths compared after collapsing runs of '/'. `stat` errors other than absence are not modelled. `Exists` stands for both `stat` and `file_exists`, although the source's `file_exists` also requires a regular file; so a directory named like the lazy table's file (dbcheck.cc:144) or a changeset file (dbcheck.cc:195) is treated as present in the model.
- The Windows/OS2 backslash branch of the leafname split (dbcheck.cc:255-258) is platform-specific and not modelled.
- The collaborators of `Database::check` are oracles, each a function of its arguments. This covers `check_chert_table`, `check_glass_table`, `ChertDatabase`, `Xapian::Database`, `GlassVersion::read`, `GlassChanges::check`, `ChertVersion::read_and_check` and `ChertVersion::create`. What they write to the output stream, and the contents of `doclens`, are left out.
- DbCheck.ChertCalls: `check_chert_table` is handed a pointer to `rev` (dbcheck.cc:108, 156) and may write a revision back through it, which the comment at dbcheck.cc:127-130 counts on for the record table in fix mode. `check_chert_table` is not part of this model, so every table of the chert loop is checked with the revision read at open time (0 after a failed open); DbCheck.ChertCallsArguments, DbCheck.CheckChertDirectory, DbCheck.CheckChertDatabase and DbCheck.Check state their calls under that assumption.
- A failure of `GlassVersion::read` or of a changeset check in the glass branch is passed on as an error, as the source does.
- Memory allocation is the oracle `alloc`. Its three outcomes stand for `reserve` succeeding, throwing `bad_alloc` and throwing `length_error`.
- The advisory line of `reserve_doclens` is one `Advise` event in the trace, whose text is `AdviceText` of the advice given.
- DbCheck.Check: the single-table case is stated with the corrected marker probe, dir + marker, not the source's dir + "/" + marker; the two agree whenever the table path holds a '/' (MarkerProbesAgree), and the behaviour as written is SingleTableWith(..., true), which CheckSingleTable computes when asked.
- DbCheck.CheckOtherPath: after the retired-backend markers it calls CheckSingleTable with the corrected probe, for the same reason as DbCheck.Check.
- DbCheck.CheckChertDirectory: a failure of `ChertVersion::create` (dbcheck.cc:166), which is outside any try block and would make `Database::check` throw, is not modelled; RecreateVersion always succeeds.
- The exact layout of `endl` is modelled as a trailing newline. The stream's flushing is not modelled.
- DbCheck.Check: the values of the `DBCHECK_*` constants are not part of this model, except that DBCHECK_FIX is taken to be 16 (xapian/constants.h is not part of this model). The masking is stated in terms of that constant.
- OmegaSeen.SeenTracker.HandleDeletion: the database's postlist iteration is modelled by the set of existing docids, and `skip_to` by taking the least member at or above `did`. The method requires the tracker's invariant: while flags are kept, the counter equals the number of existing documents whose flag is clear. index_init, mark_as_seen and the addition of new documents keep it. `db.delete_document` is removing the docid from the set. The verbose message is not modelled.
- OmegaSeen.SeenTracker.constructor: index_init's database opening, value bounds and the other globals it sets are not modelled. Only `updated`, `old_docs_not_seen` and the existing docids are.
- UTF-8 decoding of the CSV text (`Utf8Iterator`) is not modelled. The sampler reads a sequence of code points, and `append_utf8` is the standard 1–4 byte encoding.
- The CSV sampler's `reserve` call only sizes capacity and is not modelled. When sample_size is below 3, `sample.replace(sample_size - 3, ...)` throws `std::out_of_range`; the model returns `OutOfRange` for it.
- Running `pdfinfo` (`stdout_to_string`, `append_filename_argument`) is not modelled. Its output is a parameter, and `None` stands for the `ReadError` that leaves the fields as they were.
- `append_filename_argument`'s shell escaping is a parameter, `escape`, which gives the escaped text without the leading space. `get_tmpfile` is a parameter `tmpfile` from leafname to path.
- Running the filter and reading its output are not modelled: `stdout_to_string`, the temporary file, `unlink` and the skip messages. The model stops at the prepared command.
- OmegaFilter.FindFilter: for a MIME type ending in '/', the source writes '*' one past the end of a string of length slash + 1, which is undefined behaviour. The model looks up major + "/*" there, which is what the other MIME types get.
- `localtime`/`date_to_string` are not modelled. The date text is a parameter, and only its truncation into the month and year terms is.
- OmegaTerms.ExtTerm: `ch |= 32` on 'A'..'Z' is modelled as adding 32, which is the same value for those 26 codes.
- The HTML, XML, OpenDocument, XLSX, SVG and Atom parsers, MD5, charset conversion, `TermGenerator` indexing, `sortable_serialise`, the `Failed` store and console output of `skip` are not modelled. Nor is any part of `index_mimetype` other than the pieces listed above.

## Findings

| source | as written | input that shows it | evidently intended | confidence | as-written member | corrected member |
|---|---|---|---|---|---|---|
| xapian-core/backends/dbcheck.cc:283-290 | in single-table chert mode the flint and brass markers are probed at dir + "/iamflint" and dir + "/iambrass", where dir is empty or already ends in '/' | path "postlist.DB" with no '/': dir is "", so the probe looks for "/iamflint" at the file-system root; a flint table in the current directory is not recognised and is checked as chert | probe the marker beside the table, dir + "iamflint", which names ./iamflint for an empty dir and the same file as before otherwise | not executed | DbCheck.RootProbeCounterexample | DbCheck.MarkerProbeBesideTable |
