# Reading circle: a verified model of the meet and book rules

This project models the server-side rules of a reading-circle web application in Dafny, and proves properties of them. Members propose books, plan meets, vote on candidate books and dates, and rank the books they have read.

The model covers:

- **The meet lifecycle.** A meet is a draft, then voting, then reading, then completed; it can be cancelled on the way. Only the host or an admin changes the phase. Entering the reading phase needs a selected book and a selected date.
- **Candidates.** A draft meet has candidate books. Members spread exactly 15 points over them. The host selects the book directly, picks the top scorer once scores are revealed, or breaks a tie.
- **Dates.** Members mark their availability for proposed date options. The host picks one.
- **Top five.** In a reading or completed meet, each member ranks up to five books read by the circle. The cross-meet aggregate sorts the books by points: rank 1 is worth 5, rank 5 is worth 1.
- **Books.** Field validation; the derived "read" flag and candidate count of the book list; creator-or-admin update and delete; comments; the admin bulk import.
- **The client's CSV parser** for that import.
- **The validators** for e-mail, user name, string field and availability, and the **password policy**.

## How the model is organised

The SQLite store is a class `Store.Db`:

- The book and meet tables are maps from id to row. The other tables are sequences of rows in table order.
- `Db.Valid` states what the schema guarantees:
  - primary keys are unique;
  - the three unique indexes hold: one vote per candidate and user, one date vote per option and user, one rank per meet and user;
  - the foreign keys the routes rely on point at existing rows.

Each route handler becomes two members:

- A pure check function (`…Check`). It returns the handler's first error in the handler's own order, and its contract states exactly when the request passes.
- A method that changes only the tables the handler writes (field-granular `modifies`). It preserves `Valid`, and states the new contents of those tables.

Multi-row writes are specified by pure functions on sequences. `Seqs.InsertAll` is the row-by-row insertion that stops at the first unique-key clash. The properties the application relies on are proved about these functions:

- a whole ballot is stored exactly when its keys are distinct;
- re-submission replaces the member's rows and touches no one else's;
- the last answer for a date wins;
- the aggregate is sorted, keeps every book once, and conserves points.

`isValidBookType` is imported by server/src/routes/books.ts but its definition is not part of this model. The book operations take it as a parameter `validType`.

Ids are abstract numbers. Every id in the store lies below a counter, and `Db.FreshId` stands for `uuid()`.

In these places the model follows the code as written:

- **Multi-row writes are not transactional.** A ballot that clashes with a unique index keeps the rows inserted before the clash. The same holds for a top five with a repeated rank, and for date votes that name a missing option.
- **Selecting a date has no phase guard.**
- **Candidate and date-option removal do not check the meet.** They delete the row with that id whatever meet it belongs to. Date votes and date selection likewise accept an option from any meet.
- **Availability values are stored unvalidated.**
- **Negative and zero points pass the 15-point total check.** Only positive rows are stored (`MeetVoting.NegativePointsStoreMore`).
- **Resolving a tie accepts any book from the host or an admin**, in any phase, whatever the scores (`MeetCandidates.ResolveTieIgnoresVotes`).
- **Deleting a book that a top-five entry names** fails on the foreign key. The book's comments have already been deleted by then.

## Model

| member | source | states |
|---|---|---|
| Strings.Trim | server/src/utils/validation.ts:8 | `trim` leaves no whitespace at either end, never lengthens, and is empty exactly for all-whitespace input |
| Strings.TrimPadded | server/src/utils/validation.ts:8 | whitespace added around a string does not change its trim |
| Strings.TrimUnique | server/src/utils/validation.ts:8 | trimming `whitespace + core + whitespace` with a trimmed core gives back exactly the core |
| Strings.TrimIdempotent | server/src/utils/validation.ts:8 | trimming twice is trimming once |
| Strings.ToLowerChar | client/src/pages/AdminPage.tsx:31-33 | an upper-case ASCII letter maps to the lower-case letter 32 code points above it; every other character is kept |
| Strings.ToLower | client/src/pages/AdminPage.tsx:31-33 | `toLowerCase` keeps the length and maps each upper-case ASCII letter to its lower-case letter, keeping every other character |
| Strings.OrNull | server/src/routes/books.ts:196-200 | `v \|\| null` drops exactly the missing and the empty strings and keeps the others unchanged |
| Strings.TrimOpt | server/src/routes/books.ts:341 | `v?.trim()` keeps an undefined field undefined; a defined one becomes trimmed, and empty exactly when it was all whitespace |
| Validation.IndexOf | server/src/utils/validation.ts:1 | the first position of a character, or -1 exactly when it does not occur |
| Validation.IsValidEmail | server/src/utils/validation.ts:1-5 | accepted exactly when the string is `A@B.C` (non-empty runs without whitespace or `@`) and is at most 254 characters long |
| Validation.IsValidUsername | server/src/utils/validation.ts:7-10 | an accepted name is not all whitespace and has at least 2 characters |
| Validation.TrimmedUsername | server/src/utils/validation.ts:7-10 | a name without surrounding whitespace is accepted exactly when it has 2 to 30 characters |
| Validation.UsernameIgnoresPadding | server/src/utils/validation.ts:7-10 | surrounding whitespace never changes whether a user name is accepted |
| Validation.IsValidStringField | server/src/utils/validation.ts:12-14 | accepted exactly when some character is not whitespace and the untrimmed length is within the limit |
| Validation.IsValidAvailability | server/src/utils/validation.ts:16-20 | accepted exactly when the value names one of the four availability answers |
| Password.SpecialIsPunctuationButBacktickAndTilde | server/src/utils/password.ts:29 | the special-character class is exactly ASCII punctuation without the backtick and the tilde |
| Password.SpecialIsPunctuation | server/src/utils/password.ts:29 | every character of the special class is ASCII punctuation other than the backtick and the tilde |
| Password.PunctuationBeforeDigits | server/src/utils/password.ts:29 | the punctuation marks `!` to `/` all belong to the special class |
| Password.Contains | server/src/utils/password.ts:20-29 | a one-class regular-expression test is true exactly when some character is in the class |
| Password.ValidatePassword | server/src/utils/password.ts:14-33 | no error exactly when no rule is broken; otherwise the error names a broken rule and every earlier rule holds; a short password always reports the length |
| Password.AcceptedIff | server/src/utils/password.ts:14-33 | a password is accepted exactly when it has 8 characters and an upper-case letter, a lower-case letter, a digit and a special character |
| Csv.Split | client/src/pages/AdminPage.tsx:30 | `split(',')` gives at least one piece and no piece contains the separator |
| Csv.SplitJoin | client/src/pages/AdminPage.tsx:30 | joining the pieces of a split gives back the line; there is one piece more than separators |
| Csv.TrimAll | client/src/pages/AdminPage.tsx:30 | trimming every field keeps the number of fields |
| Csv.TrimAllAt | client/src/pages/AdminPage.tsx:30 | field k of the trimmed list is field k trimmed |
| Csv.Scan | client/src/pages/AdminPage.tsx:51-80 | the character scan of `parseCSVLine` always emits at least one more field than it started with |
| Csv.LineFieldsTrimmed | client/src/pages/AdminPage.tsx:51-80 | a parsed line has at least one field and every field is trimmed |
| Csv.ParseCsvLine | client/src/pages/AdminPage.tsx:51-80 | the character loop with its in-quotes flag computes the fields of the scan specification |
| Csv.ScanUnquoted | client/src/pages/AdminPage.tsx:66-75 | without quotes the scan cuts exactly at the commas |
| Csv.UnquotedLine | client/src/pages/AdminPage.tsx:51-80 | a line without quotes parses to its comma-separated pieces, trimmed, one more than its commas |
| Csv.ScanEscaped | client/src/pages/AdminPage.tsx:58-61 | inside quotes each doubled quote reads as one quote character |
| Csv.ScanQuoted | client/src/pages/AdminPage.tsx:57-70 | a quoted, escaped field reads back as its text |
| Csv.ScanJoinQuoted | client/src/pages/AdminPage.tsx:51-80 | scanning quoted fields joined by commas yields those fields |
| Csv.QuotedLineFields | client/src/pages/AdminPage.tsx:51-80 | round trip: quoting and joining any fields, then parsing, gives the fields back trimmed |
| Csv.SplitLines | client/src/pages/AdminPage.tsx:26 | splitting the text on `\r?\n` yields at least one line |
| Csv.NonBlank | client/src/pages/AdminPage.tsx:26 | `filter(l => l.trim())` keeps exactly the lines that are not blank once trimmed, and never adds lines |
| Csv.NonBlankAppend | client/src/pages/AdminPage.tsx:26 | the filter keeps the order of the lines: filtering two runs of lines is filtering each and joining the results |
| Csv.NonBlankKeepsAll | client/src/pages/AdminPage.tsx:26 | lines that are all non-blank come through unchanged, in order |
| Csv.Unquote | client/src/pages/AdminPage.tsx:30 | `replace(/^"(.*)"$/, '$1')` removes one pair of surrounding quotes exactly when the cell starts and ends with a quote and has no line terminator between them; otherwise the cell is unchanged |
| Csv.HeaderCells | client/src/pages/AdminPage.tsx:29-30 | one cell per comma-separated piece of the header line; each cell is that piece trimmed, with at most one pair of surrounding quotes removed |
| Csv.HeaderIndex | client/src/pages/AdminPage.tsx:31-33 | the index of a column name, ignoring case, is the last header cell with that name (the Map keeps the last), or -1 exactly when there is none |
| Csv.MissingColumnReadsEmpty | client/src/pages/AdminPage.tsx:33-39 | `values[getIndex(name)] \|\| ''` is the empty string for a name no header cell matches in any letter case |
| Csv.MissingColumnIsEmpty | client/src/pages/AdminPage.tsx:38-45 | each of the seven book columns the header lacks, in any letter case, reads as the empty string in every row |
| Csv.ReadRows | client/src/pages/AdminPage.tsx:35-47 | one row per data line, each built from that line's fields |
| Csv.ParseCsv | client/src/pages/AdminPage.tsx:25-49 | fewer than two non-blank lines give no rows; otherwise one row per non-blank line after the header |
| Seqs.Filter | server/src/routes/meets.ts:750-755 | a delete by condition keeps exactly the rows that fail it and never adds rows |
| Seqs.FilterAppend | server/src/routes/meets.ts:750-755 | deleting from two runs of rows is deleting from each |
| Seqs.FilterAll | server/src/routes/meets.ts:750-755 | a condition that no row meets deletes nothing |
| Seqs.FilterNone | server/src/routes/meets.ts:750-755 | a condition that every row meets deletes every row |
| Seqs.ConsDistinct | server/src/db/schema.ts:74 | a key is unique in `x + rest` exactly when x's key is not in rest and rest is unique |
| Seqs.FilterDistinct | server/src/db/schema.ts:74 | deleting rows keeps a unique key unique |
| Seqs.InsertAll | server/src/routes/meets.ts:758-766 | row-by-row inserts under a unique index store a prefix of the rows and keep the index unique; they store every row exactly when the result is unique |
| Seqs.InsertAllAppend | server/src/routes/meets.ts:758-766 | inserting `pre + rest` is inserting `pre` and then `rest` |
| Seqs.AppendDistinct | server/src/db/schema.ts:89 | appending a row with a new key keeps the key unique |
| Store.ParsePhase | server/src/db/schema.ts:49 | a phase name parses to the phase with that name, and only the five names parse |
| Store.PhaseNameRoundTrip | server/src/db/schema.ts:49 | every phase's stored name reads back as that phase |
| Store.Db.constructor | server/src/db/init.ts:14 | an empty store satisfies every schema invariant |
| Store.Db.FreshId | server/src/routes/meets.ts:214 | a fresh id is carried by no book, meet, candidate or date option, and keeps the invariant |
| Meets.MeetLabel | server/src/routes/meets.ts:18-22 | with a non-empty selected title the label is `<title> at <host>`; without one it is `Draft Meet by <host>`; either way it ends with the host's name |
| Meets.TransitionsMoveForward | server/src/routes/meets.ts:283-292 | every allowed transition moves to a later stage; completed and cancelled meets are final; nothing returns to draft |
| Meets.PhaseChangeCheck | server/src/routes/meets.ts:277-303 | the change passes exactly for host or admin, a known target allowed from the current phase, and for reading a selected book and date; names which guards held before each error |
| Meets.ChangePhase | server/src/routes/meets.ts:277-319 | on success only the meet's phase changes; on any error nothing changes |
| Meets.CreateMeet | server/src/routes/meets.ts:211-246 | a new draft meet under a fresh id, hosted by the caller, empty strings stored as null, labelled as a draft |
| Meets.DraftEditCheck | server/src/routes/meets.ts:387-394 | removing a candidate or adding or removing a date option passes exactly for the host or an admin of an existing draft meet; any other phase reports the phase before the permission |
| Meets.RevealCheck | server/src/routes/meets.ts:553-560 | revealing passes exactly for the host or an admin of an existing meet |
| Meets.RevealScores | server/src/routes/meets.ts:553-571 | on success only the meet's revealed flag is set |
| Meets.CandidatesOf | server/src/routes/meets.ts:79-94 | a meet's candidates are exactly the candidate rows with its id |
| Meets.CandidateTotalAppend | server/src/routes/meets.ts:111-121 | a candidate's total over two runs of votes is the sum of the totals |
| Meets.CandidateTotalOthers | server/src/routes/meets.ts:111-121 | votes for other candidates add nothing to a candidate's total |
| Meets.CandidateViews | server/src/routes/meets.ts:96-121 | one view per candidate; "already selected" exactly when a completed meet selected the book; points shown exactly when revealed or in reading/completed, and then its vote total |
| Meets.Members | server/src/routes/meets.ts:529-532 | the listed members are exactly the non-temporary users |
| Meets.VoteStatus | server/src/routes/meets.ts:527-550 | one line per member, in user order, with "has voted" exactly when a vote of theirs in this meet exists |
| MeetCandidates.AddCandidateCheck | server/src/routes/meets.ts:339-362 | adding passes exactly for a draft meet, host or admin, a given book that exists; a non-draft meet always reports the phase |
| MeetCandidates.AddCandidate | server/src/routes/meets.ts:339-384 | appends one candidate with a fresh id and its motivation or null, and reports whether a completed meet already read the book |
| MeetCandidates.RemoveCandidate | server/src/routes/meets.ts:387-401 | deletes the candidate row with that id and, by the cascade, its votes |
| MeetCandidates.RemovalKeepsReferences | server/src/db/schema.ts:70 | after the cascade every vote still names an existing candidate, and keys stay unique |
| MeetCandidates.MaxTotal | server/src/routes/meets.ts:433-441 | the highest total is reached by some candidate and bounds all of them |
| MeetCandidates.IsTopScorer | server/src/routes/meets.ts:441-452 | true exactly when some candidate for the book scores at least as much as every candidate |
| MeetCandidates.SelectBookCheck | server/src/routes/meets.ts:404-455 | passes exactly for host or admin with a book, either in draft with no candidate or only that one, or in voting once revealed for a top scorer; names the multiple-candidate and not-revealed errors |
| MeetCandidates.SelectBook | server/src/routes/meets.ts:404-472 | sets only the selected book (a missing book fails the foreign key) and reports whether a completed meet already read it |
| MeetCandidates.ResolveTieCheck | server/src/routes/meets.ts:574-583 | passes exactly for host or admin of an existing meet with a book given |
| MeetCandidates.ResolveTie | server/src/routes/meets.ts:574-595 | sets only the selected book, or fails on the foreign key of a missing book |
| MeetCandidates.ResolveTieIgnoresVotes | server/src/routes/meets.ts:574-595 | a book that is not a top scorer is still accepted when a tie is resolved, while direct selection refuses it |
| MeetVoting.FirstForeign | server/src/routes/meets.ts:491-501 | no id is returned exactly when every voted candidate is in the meet; otherwise the first one that is not |
| MeetVoting.VoteCheck | server/src/routes/meets.ts:477-501 | passes exactly for a voting meet, votes given, a 15-point total and in-meet candidates; a wrong total reports that total |
| MeetVoting.NewRows | server/src/routes/meets.ts:508-518 | the stored rows are the caller's, in this meet, with positive points, at most one per vote |
| MeetVoting.NewRowsAppend | server/src/routes/meets.ts:508-518 | the rows of two runs of votes are the rows of each |
| MeetVoting.NewRowsInMeet | server/src/routes/meets.ts:491-518 | when all voted candidates are in the meet, so are those of the stored rows |
| MeetVoting.SubmitVotes | server/src/routes/meets.ts:477-524 | a failed check changes nothing; otherwise the member's old votes in the meet are replaced row by row, and success means every row went in, else a unique-key error |
| MeetVoting.InsertVotes | server/src/routes/meets.ts:507-519 | the insertion loop computes the row-by-row insertion and reports whether every row went in |
| MeetVoting.ReplacementKeepsReferences | server/src/db/schema.ts:70 | after re-voting every vote still names a candidate of its meet |
| MeetVoting.FailedInsertion | server/src/routes/meets.ts:507-519 | a row whose key is already taken stops the insertion there, with the rows before it kept |
| MeetVoting.ReplacementIsExact | server/src/routes/meets.ts:503-519 | after a full re-vote the member's rows in the meet are exactly the new ones and every other row is untouched |
| MeetVoting.ReplacementIdempotent | server/src/routes/meets.ts:503-519 | submitting the same ballot twice leaves the table as the first submission did |
| MeetVoting.RowsDistinctByCandidate | server/src/db/schema.ts:74 | one member's rows sharing no key means they name distinct candidates |
| MeetVoting.KeptAndNewDisjoint | server/src/db/schema.ts:74 | kept rows of other members or meets never clash with the member's new rows |
| MeetVoting.InsertedIffDistinct | server/src/routes/meets.ts:503-519 | a ballot is stored whole exactly when it names no candidate twice |
| MeetVoting.StoredPoints | server/src/routes/meets.ts:486-518 | without negative points the stored points add up to the ballot's total |
| MeetVoting.NegativePointsStoreMore | server/src/routes/meets.ts:486-518 | a ballot of 20 and -5 points passes the 15-point check but stores 20 points |
| MeetVoting.TotalNeedsPositive | server/src/routes/meets.ts:486-518 | a ballot with a positive total stores at least one row |
| MeetVoting.SubmittedShowsVoted | server/src/routes/meets.ts:527-550 | after a stored 15-point ballot the member shows as having voted |
| MeetDates.AddDateOption | server/src/routes/meets.ts:600-623 | a missing or empty date fails; otherwise appends one option under a new id |
| MeetDates.RemoveDateOption | server/src/routes/meets.ts:626-640 | deletes the option with that id and, by the cascade, its votes |
| MeetDates.OptionRemovalKeepsReferences | server/src/db/schema.ts:85 | after the cascade every date vote names an existing option and keys stay unique |
| MeetDates.DateVoteCheck | server/src/routes/meets.ts:643-651 | date votes pass only for a voting meet with a votes array |
| MeetDates.SetAvailability | server/src/routes/meets.ts:658-666 | the update rewrites the availability of the row with that key and no other row |
| MeetDates.Upsert | server/src/routes/meets.ts:655-674 | updates an existing row or inserts a new one; fails, on the foreign key, exactly when neither the row nor the option exists; keeps keys unique and option references valid |
| MeetDates.SubmitDateVotes | server/src/routes/meets.ts:643-679 | a failed check changes nothing; otherwise the answers are applied in order, stopping at the first missing option |
| MeetDates.AvailabilityOf | server/src/routes/meets.ts:655-660 | an answer is found exactly when a row has the key, and it is that row's answer |
| MeetDates.AvailabilityOfDistinct | server/src/db/schema.ts:89 | with unique keys, looking up a row's key finds that row's answer |
| MeetDates.UpsertRecords | server/src/routes/meets.ts:655-674 | after one answer, its key reads back that answer and every other key is unchanged |
| MeetDates.LastEntryWins | server/src/routes/meets.ts:654-675 | after a whole submission each of the caller's options holds their last answer for it; other members' answers are unchanged |
| MeetDates.UpsertAllSucceedsIff | server/src/routes/meets.ts:654-675 | a submission goes through exactly when every named option exists, in any meet |
| MeetDates.SelectDateCheck | server/src/routes/meets.ts:682-697 | passes exactly for host or admin with an option id that exists, with no phase condition |
| MeetDates.FindOption | server/src/routes/meets.ts:692-695 | finds the option with that id exactly when there is one |
| MeetDates.SelectDate | server/src/routes/meets.ts:682-706 | sets only the meet's selected date, to the chosen option's date-time, and returns it |
| MeetTop5.EligibleBooks | server/src/routes/meets.ts:722-734 | the rankable books are exactly those selected by a reading or completed meet |
| MeetTop5.EligibleBooksExist | server/src/db/schema.ts:50 | every rankable book exists |
| MeetTop5.FirstEntryError | server/src/routes/meets.ts:736-743 | no error exactly when every entry names a rankable book with rank 1 to 5; book eligibility is checked before rank |
| MeetTop5.Top5Check | server/src/routes/meets.ts:711-747 | passes exactly for a reading or completed meet, entries given, all valid, at most min(5, rankable books); the limit is reported |
| MeetTop5.Rows | server/src/routes/meets.ts:758-766 | one top-five row per entry with the meet, the caller, the book and the rank |
| MeetTop5.SubmitTop5 | server/src/routes/meets.ts:711-772 | a failed check changes nothing; otherwise the caller's ranking is deleted and the entries inserted row by row, success meaning all went in |
| MeetTop5.ReplacementKeepsBooks | server/src/db/schema.ts:113 | after the replacement every top-five row names an existing book |
| MeetTop5.InsertTop5 | server/src/routes/meets.ts:758-766 | the insertion loop computes the row-by-row insertion and reports whether every entry went in |
| MeetTop5.InsertedIffRanksDistinct | server/src/db/schema.ts:116 | a ranking is stored whole exactly when no rank repeats |
| MeetTop5.Top5ReplacementIsExact | server/src/routes/meets.ts:750-766 | after a full replacement the caller's rows in the meet are exactly the new ones and nothing else changed |
| MeetTop5.FirstSeen | server/src/routes/meets.ts:791-805 | the aggregate's books in first-seen order: distinct, and exactly the ranked books |
| MeetTop5.Groups | server/src/routes/meets.ts:791-805 | one unsorted line per ranked book |
| MeetTop5.InsertByPoints | server/src/routes/meets.ts:807-809 | inserting a line into the sorted list adds exactly that line |
| MeetTop5.InsertBounded | server/src/routes/meets.ts:807-809 | inserting keeps a lower bound on points |
| MeetTop5.InsertKeepsSorted | server/src/routes/meets.ts:807-809 | inserting into a list sorted by points, highest first, keeps it sorted |
| MeetTop5.SortByPoints | server/src/routes/meets.ts:807-809 | the sort puts the highest points first and is a permutation |
| MeetTop5.Aggregate | server/src/routes/meets.ts:775-815 | sorted by points, highest first; one line per ranked book with that book's points (6 minus rank, summed) and appearances; no book twice; every ranked book present; the lines together hold all points and one appearance per entry |
| MeetTop5.GroupEntries | server/src/routes/meets.ts:787-805 | the map-building loop computes the first-seen lines with each book's totals |
| MeetTop5.SortedGroups | server/src/routes/meets.ts:807-815 | the sorted lines carry each book's totals, name distinct books and cover every entry |
| MeetTop5.DistinctOnce | server/src/routes/meets.ts:791-805 | a line occurs at most once among lines for distinct books |
| MeetTop5.OccursTwice | server/src/routes/meets.ts:791-805 | a line at two positions occurs twice |
| MeetTop5.MultisetDistinctIds | server/src/routes/meets.ts:807-809 | a permutation of lines for distinct books still names distinct books |
| MeetTop5.TotalsStep | server/src/routes/meets.ts:792-804 | one more entry adds its points and one appearance to its book and changes no other line |
| MeetTop5.BookSumStep | server/src/routes/meets.ts:792-804 | a book's sum over entries grows by the last entry's weight exactly when it names the book |
| MeetTop5.NotSeenSumsZero | server/src/routes/meets.ts:792-804 | a book no entry names sums to zero |
| MeetTop5.GroupSumStep | server/src/routes/meets.ts:792-804 | an entry adds its weight to the sum over distinct books exactly when it names one of them |
| MeetTop5.GroupSumTotal | server/src/routes/meets.ts:791-805 | the sum over the first-seen books is the sum over all entries |
| MeetTop5.GroupLines | server/src/routes/meets.ts:791-805 | lines carrying the books' sums add up to the sum over those books |
| MeetTop5.GroupsConserve | server/src/routes/meets.ts:791-805 | the grouped lines, before sorting, hold all points of all entries and one appearance per entry |
| MeetTop5.InsertKeepsTotals | server/src/routes/meets.ts:807-809 | inserting a line into the ranking adds exactly its points and appearances to the totals |
| MeetTop5.SortKeepsTotals | server/src/routes/meets.ts:807-809 | sorting the lines keeps their total points and appearances |
| MeetTop5.AggregateConserves | server/src/routes/meets.ts:791-811 | the sorted ranking the route returns holds all points of all entries and one appearance per entry |
| MeetTop5.CountIsLength | server/src/routes/meets.ts:796 | counting one per entry gives the number of entries |
| Books.ValidateBookFields | server/src/routes/books.ts:153-177 | no error exactly when no field rule is broken; otherwise a broken rule with every earlier rule holding |
| Books.MissingFieldsPass | server/src/routes/books.ts:153-177 | a body without fields passes: only supplied fields are checked |
| Books.ReadBookIds | server/src/routes/books.ts:38-45 | the read books are exactly those selected by a completed meet |
| Books.CountOf | server/src/routes/books.ts:48-57 | a book's candidate count is zero exactly when no candidate row names it |
| Books.CandidateCountsAgree | server/src/routes/books.ts:48-63 | the grouped count, with 0 for absent books, equals counting rows; books with a count are exactly those with a candidate |
| Books.ListBooks | server/src/routes/books.ts:30-64 | one entry per book with the book's row, "read" exactly when a completed meet selected it, and its number of candidate rows |
| Books.CreateCheck | server/src/routes/books.ts:180-186 | creation passes exactly when title and author are non-empty and the fields are valid; a missing title or author is reported first |
| Books.NewBook | server/src/routes/books.ts:189-201 | the inserted row holds the title, author and creator as given; an optional field is stored exactly when it was sent non-empty, and then as sent |
| Books.CreatedBookWithinLimits | server/src/routes/books.ts:180-205 | a created book meets every length limit, records its creator, has a valid type and stores no empty optional field |
| Books.InsertBook | server/src/routes/books.ts:189-201 | the insert adds exactly one book under an id no book had and keeps the schema invariant |
| Books.CreateBook | server/src/routes/books.ts:180-216 | a refused body changes nothing; an accepted one adds one book under a fresh id |
| Books.UpdateCheck | server/src/routes/books.ts:219-229 | an update passes exactly for an existing book, its creator or an admin, and valid fields |
| Books.ApplyUpdate | server/src/routes/books.ts:232-244 | a supplied title, author or introduction is stored as sent (an empty introduction stays empty); a supplied year, country, language or type is stored `\|\| null`; missing fields and the creator are kept |
| Books.UpdateIdempotent | server/src/routes/books.ts:232-244 | sending the same update twice leaves the book as once |
| Books.EmptyUpdateKeepsBook | server/src/routes/books.ts:232-244 | an empty body leaves the book unchanged |
| Books.UpdateKeepsLimits | server/src/routes/books.ts:229-244 | an accepted update keeps a book within the length limits |
| Books.UpdateBook | server/src/routes/books.ts:219-250 | a refused update changes nothing; an accepted one rewrites only that book |
| Books.DeleteCheck | server/src/routes/books.ts:253-281 | deletion passes exactly for an existing book, its creator or an admin, selected by no meet of any phase and a candidate in none |
| Books.CommentDeletionExact | server/src/routes/books.ts:283 | the comment deletion removes exactly the comments on that book |
| Books.DeleteBook | server/src/routes/books.ts:253-290 | a refused delete changes nothing; otherwise the comments go, and the book goes exactly when no top-five entry names it, else a foreign-key error |
| Books.CommentCheck | server/src/routes/books.ts:298-300 | a comment passes exactly when it is not blank and has at most 2000 characters untrimmed; it is stored trimmed and non-empty |
| Books.AddComment | server/src/routes/books.ts:293-324 | a missing book or bad content changes nothing; otherwise appends one comment by the caller with the trimmed content |
| Books.RowError | server/src/routes/books.ts:340-345 | an import row is accepted exactly when title and author are not blank and the untrimmed row passes the field checks |
| Books.ImportedBookWithinLimits | server/src/routes/books.ts:345-359 | an imported book meets every length limit |
| Books.ImportedBookTrimmed | server/src/routes/books.ts:347-359 | an imported book stores only trimmed text and no empty optional field |
| Books.TrimmedFieldValid | server/src/routes/books.ts:348-349 | trimming a valid string field leaves it valid |
| Books.ImportRow | server/src/routes/books.ts:340-360 | a row either inserts its trimmed book or is refused with its reason |
| Books.RowOutcomes | server/src/routes/books.ts:338-364 | each row is judged on its own |
| Books.ImportAccountsForEveryRow | server/src/routes/books.ts:338-364 | imported plus reported rows make up all rows |
| Books.ImportErrorsExact | server/src/routes/books.ts:338-364 | every report names a refused row by its 1-based number with its reason |
| Books.ImportErrorsAscending | server/src/routes/books.ts:338-364 | the reports come in ascending row order |
| Books.ImportReportsEveryRefusal | server/src/routes/books.ts:338-364 | every refused row is reported |
| Books.ImportBooks | server/src/routes/books.ts:327-370 | admin only, a rows array is needed; returns the count and reports; existing books are kept; each accepted row's book is inserted under its own new id, no two accepted rows share one, and every new book is an accepted row's book |
| Books.RefusedRowStep | server/src/routes/books.ts:341-345 | a refused row leaves the import's row-to-book correspondence as it was |
| Books.AcceptedRowStep | server/src/routes/books.ts:347-359 | an accepted row inserted under a fresh id extends the row-to-book correspondence by that row |
| Books.ImportRows | server/src/routes/books.ts:338-364 | the loop collects the count and the reports, keeps the old books, and inserts each accepted row's book under its own new id, one id per accepted row and no other new ids |

## Left out

- Authentication, sessions, invitations, password hashing and e-mail are not modelled. The caller arrives as an `Actor`.
- Time stamps (`createdAt`, `updatedAt`) are not modelled. `uuid()` is modelled as `Db.FreshId`, which takes the next value of a counter.
- Surrogate row ids are dropped for vote, date-vote, top-five and comment rows. The code never reads them.
- Meet listing, meet update (`PUT /:id`) and meet deletion are not modelled. Nor are the book detail and comment listing routes, the users routes and the `user_books` list with its cascade. None of them is part of the modelled core.
- Response shaping is not modelled. This covers the joined user names, book titles and authors in responses, and the error message texts (errors are constructors). The exception is the password messages, which are modelled.
- JSON type confusion is not modelled. The body is assumed to have the declared shape: strings or missing for text fields, a list or missing for arrays. A non-string field, and a thrown `TypeError` that becomes a 500, are outside the model.
- Ranks and points are integers. The model does not cover fractional ranks (which pass `rank < 1 \|\| rank > 5` in JavaScript) or fractional points.
- String lengths count Unicode code points, not UTF-16 units. `toLowerCase` is modelled on ASCII letters only.
- The sort of the aggregate is not proved stable. Its proved contract is sortedness plus being a permutation.
- `isValidBookType` is not part of this model. It is a parameter of the book operations.
- Books.ImportRows: the `catch` branch for database errors is not modelled. An accepted row always inserts, because its id is fresh and the book table has no other unique key.
- Meets.PhaseChangeCheck: the reading-phase guard re-reads the meet. The model reads it once, because nothing in between can change it.
