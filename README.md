# Take a match as commentator or referee

A model of two chat commands of the Beneluwux Discord bot,
`takeascommentator` and `takeasreferee`. Each lets a caller put their
display name on the roster of one match in the tournament's Google
spreadsheet. The two commands are the same code apart from the role they
check and the spreadsheet column they write, so one model parameterised by
`Role` covers both. Every line number cited below for
`TakeAsCommentatorCommand.java` holds the same code at the same line in
`TakeAsRefereeCommand.java`.

A command runs in three steps:

1. **Guards**, in this order: a tournament is running in the server; the
   caller holds the tournament's commentator (or referee) role or owns the
   server; the tournament is set up; a non-empty match id was given. The
   first failing guard ends the command with an error message, before the
   spreadsheet is opened.
2. **Row scan**: the schedule tab's match-id range is read as a list of
   rows. The rows are visited in order. A row with no cells never matches.
   The first row whose first cell equals the requested id is the match. When
   no row matches, the caller is told that there is no match with that id.
3. **Roster update** of that row's commentator (or referee) cell:
   - an empty cell (null) becomes the display name;
   - otherwise the cell is split with Java's `split("/")`, and every piece is
     trimmed with Java's `trim()`;
   - if the split gives no pieces (a cell of nothing but '/'), the cell becomes
     the display name;
   - if a trimmed piece equals the display name exactly, nothing is written
     and the caller is told they are already listed;
   - otherwise the name is appended, the list is joined with `" / "`, and the
     result is written back to the cell. That is the only spreadsheet cell the
     command writes.

Files:

- `optional.dfy`: `Option`, for Java's null.
- `java_text.dfy`: Java's `String.split("/")`, `String.trim()` and
  `String.join`, with their edge cases, and the laws that connect them.
  - `"".split("/")` is `[""]`.
  - `"/".split("/")` is `[]`.
  - Trailing empty pieces are dropped.
  - `trim` removes every leading and trailing character up to U+0020.
- `roster.dfy`: the claim rule for one cell. `NewRoster` is the
  specification. `UpdateRoster` is the command's imperative trim loop,
  duplicate search and append, proved equal to it.
- `take_match.dfy`: the guards, the row scan and the outcome, with
  `TakeSpec` as the specification. The class `Schedule` holds the
  spreadsheet's match-id column and its two roster columns. Its `Execute`
  method runs a command and writes at most one cell.

The spreadsheet, the Discord event and the helper checks are inputs:

- The guard answers are the booleans of `Context`.
- The match-id range is `Schedule.matchIds`.
- A roster cell is an entry of a `map<nat, string>`. A row that is absent
  from the map reads as null.
- The cell write is `Schedule.WriteCell`.
- The message the command sends is the returned `Outcome`.

## Model

| member | source | states |
|---|---|---|
| `JavaText.Trim` | src/main/java/com/dirk/commands/tournament/match/TakeAsCommentatorCommand.java:133 | the trimmed string has no trim space (code point <= U+0020) at either end |
| `JavaText.TrimStartShape` | src/main/java/com/dirk/commands/tournament/match/TakeAsCommentatorCommand.java:133 | the leading half of `trim` drops exactly a run of trim spaces and keeps the rest of the string as a suffix |
| `JavaText.TrimEndShape` | src/main/java/com/dirk/commands/tournament/match/TakeAsCommentatorCommand.java:133 | the trailing half of `trim` drops exactly a run of trim spaces and keeps the string before it as a prefix |
| `JavaText.TrimPadded` | src/main/java/com/dirk/commands/tournament/match/TakeAsCommentatorCommand.java:133 | trimming a trimmed string with any padding of trim spaces on either side gives the string back |
| `JavaText.TrimOfTrimmed` | src/main/java/com/dirk/commands/tournament/match/TakeAsCommentatorCommand.java:133 | `trim` leaves an already trimmed string unchanged |
| `JavaText.TrimKeepsNoSlash` | src/main/java/com/dirk/commands/tournament/match/TakeAsCommentatorCommand.java:128-133 | a trimmed piece of a split cell still contains no '/' |
| `JavaText.Pieces` | src/main/java/com/dirk/commands/tournament/match/TakeAsCommentatorCommand.java:128 | cutting a string at every '/' gives at least one piece |
| `JavaText.PiecesNoSlash` | src/main/java/com/dirk/commands/tournament/match/TakeAsCommentatorCommand.java:128 | no piece of a string cut at '/' contains '/' |
| `JavaText.DropTrailingEmpty` | src/main/java/com/dirk/commands/tournament/match/TakeAsCommentatorCommand.java:128 | the result is a prefix of the pieces whose last element is not empty, and everything dropped was empty |
| `JavaText.Split` | src/main/java/com/dirk/commands/tournament/match/TakeAsCommentatorCommand.java:128 | a string without '/' comes back whole from `split("/")`, so `""` gives one empty entry |
| `JavaText.SplitNoSlash` | src/main/java/com/dirk/commands/tournament/match/TakeAsCommentatorCommand.java:128 | no entry of `split("/")` contains '/' |
| `JavaText.SplitKeepsPieces` | src/main/java/com/dirk/commands/tournament/match/TakeAsCommentatorCommand.java:128 | `split("/")` drops nothing when the last piece is not empty |
| `JavaText.PiecesOfJoin` | src/main/java/com/dirk/commands/tournament/match/TakeAsCommentatorCommand.java:128 | cutting a '/'-joined list of slash-free strings at '/' gives the list back |
| `JavaText.JoinOfPieces` | src/main/java/com/dirk/commands/tournament/match/TakeAsCommentatorCommand.java:128 | joining the pieces of any string with '/' rebuilds the string |
| `JavaText.SplitOfJoin` | src/main/java/com/dirk/commands/tournament/match/TakeAsCommentatorCommand.java:128 | `split("/")` undoes a '/'-join of slash-free strings when the last is non-empty or there is only one |
| `JavaText.PiecesAllEmpty` | src/main/java/com/dirk/commands/tournament/match/TakeAsCommentatorCommand.java:128 | every piece is empty if and only if the string is all '/' |
| `JavaText.SplitEmptyIff` | src/main/java/com/dirk/commands/tournament/match/TakeAsCommentatorCommand.java:128-131 | `split("/")` gives no entries if and only if the string is non-empty and all '/' |
| `JavaText.JoinEndsWithLast` | src/main/java/com/dirk/commands/tournament/match/TakeAsCommentatorCommand.java:146 | `String.join` of one or more strings ends with the last of them |
| `JavaText.PiecesOfSpacedJoin` | src/main/java/com/dirk/commands/tournament/match/TakeAsCommentatorCommand.java:128-146 | a " / "-join of plain names is cut at '/' into each name with the separator's spaces around it |
| `JavaText.SpacedPiecesTrim` | src/main/java/com/dirk/commands/tournament/match/TakeAsCommentatorCommand.java:132-134 | trimming those pieces one by one gives the names back |
| `JavaText.SpacedPiecesLast` | src/main/java/com/dirk/commands/tournament/match/TakeAsCommentatorCommand.java:128-146 | there is one piece per name, and with two or more names the last piece is the last name behind one space, so it is not empty |
| `JavaText.SpacedJoinPieces` | src/main/java/com/dirk/commands/tournament/match/TakeAsCommentatorCommand.java:128-146 | the pieces of a " / "-joined list of plain names, trimmed one by one, are the names |
| `JavaText.PiecesOfJoinedNames` | src/main/java/com/dirk/commands/tournament/match/TakeAsCommentatorCommand.java:128-146 | a " / "-join of plain names is cut at '/' into its spaced pieces, the first without a leading space |
| `JavaText.SpacedJoinLastNonEmpty` | src/main/java/com/dirk/commands/tournament/match/TakeAsCommentatorCommand.java:128-146 | the last piece of a " / "-join of two or more plain names is not empty |
| `JavaText.SplitOfSpacedJoin` | src/main/java/com/dirk/commands/tournament/match/TakeAsCommentatorCommand.java:128-146 | `split("/")` of a " / "-join of plain names drops no trailing piece |
| `JavaText.SplitSpacedJoin` | src/main/java/com/dirk/commands/tournament/match/TakeAsCommentatorCommand.java:128-146 | splitting a " / "-joined list of plain names on '/' and trimming each entry gives the list back |
| `Roster.TrimAll` | src/main/java/com/dirk/commands/tournament/match/TakeAsCommentatorCommand.java:132-134 | entry k is the trim of piece k, there is one entry per piece, every entry has no trim space at either end, and slash-free pieces stay slash-free |
| `Roster.Entries` | src/main/java/com/dirk/commands/tournament/match/TakeAsCommentatorCommand.java:128-134 | a cell yields one trimmed, slash-free entry per piece of its split |
| `Roster.NewRoster` | src/main/java/com/dirk/commands/tournament/match/TakeAsCommentatorCommand.java:127-154 | the claim rule: a null cell becomes the name alone; a claim is rejected only for a non-null cell that splits into at least one piece; every value written ends with the caller's display name |
| `Roster.TrimEach` | src/main/java/com/dirk/commands/tournament/match/TakeAsCommentatorCommand.java:132-134 | the in-place loop over the list replaces each piece by its trimmed form and nothing else |
| `Roster.IsListed` | src/main/java/com/dirk/commands/tournament/match/TakeAsCommentatorCommand.java:136-143 | the search reports a hit if and only if the display name equals one of the trimmed entries |
| `Roster.UpdateRoster` | src/main/java/com/dirk/commands/tournament/match/TakeAsCommentatorCommand.java:124-154 | the null test, the split, the in-place trim loop, the duplicate search, the append and the join compute the claim rule `NewRoster` |
| `Roster.RejectedIffListed` | src/main/java/com/dirk/commands/tournament/match/TakeAsCommentatorCommand.java:127-154 | a claim is rejected if and only if the name is among the cell's trimmed entries |
| `Roster.EntriesOfName` | src/main/java/com/dirk/commands/tournament/match/TakeAsCommentatorCommand.java:151-154 | a cell holding just a plain name reads back as that one entry |
| `Roster.EntriesOfSpacedJoin` | src/main/java/com/dirk/commands/tournament/match/TakeAsCommentatorCommand.java:146 | a " / "-joined list of plain names, read back as a roster cell, is that list |
| `Roster.EntriesAfterWrite` | src/main/java/com/dirk/commands/tournament/match/TakeAsCommentatorCommand.java:132-146 | after a write, the cell's entries are the earlier entries in their order with the name last, so there is exactly one more entry (for a plain name) |
| `Roster.SecondClaimRejected` | src/main/java/com/dirk/commands/tournament/match/TakeAsCommentatorCommand.java:136-146 | a second claim by the same plain name on the written cell is rejected as already listed |
| `Roster.NonPlainNameAlwaysWrites` | src/main/java/com/dirk/commands/tournament/match/TakeAsCommentatorCommand.java:128-146 | a name with a '/' in it or a leading or trailing trim space is never among the trimmed entries, so every claim by it writes the cell, however often it is repeated |
| `Roster.SlashNameClaimsAgain` | src/main/java/com/dirk/commands/tournament/match/TakeAsCommentatorCommand.java:128-146 | for example, the name `"a/b"` claiming the cell `"a/b"` is not found among the entries `"a"` and `"b"`, so it is appended: the cell becomes `"a / b / a/b"` |
| `Roster.EntriesOfSlashName` | src/main/java/com/dirk/commands/tournament/match/TakeAsCommentatorCommand.java:128-133 | the cell `"a/b"` reads back as the two entries `"a"` and `"b"` |
| `Roster.PaddedNameClaimsAgain` | src/main/java/com/dirk/commands/tournament/match/TakeAsCommentatorCommand.java:128-146 | for example, the name `"bob "` claiming the cell `"bob "` does not equal the trimmed entry `"bob"`, so it is appended: the cell becomes `"bob / bob "` |
| `Roster.SlashOnlyCellWritesName` | src/main/java/com/dirk/commands/tournament/match/TakeAsCommentatorCommand.java:128-149 | a cell of only '/' is overwritten with the name alone |
| `Roster.EmptyCellKeepsEmptyEntry` | src/main/java/com/dirk/commands/tournament/match/TakeAsCommentatorCommand.java:128-146 | an empty but non-null cell splits into one empty entry, so the write is `" / "` followed by the name |
| `TakeMatch.Guard` | src/main/java/com/dirk/commands/tournament/match/TakeAsCommentatorCommand.java:71-104 | a reported failure is always one of the four guard outcomes; all guards pass exactly when a tournament runs, the caller has the role, the tournament is set up and a non-empty id was given; each failing check reports its own outcome, checked in source order (no running tournament, then missing role, then not set up, then a missing or empty id), and a later one only when every earlier one passed |
| `TakeMatch.FirstMatch` | src/main/java/com/dirk/commands/tournament/match/TakeAsCommentatorCommand.java:113-120 | the result is the least row index whose first cell equals the id; rows without cells never match; none means no row matches |
| `TakeMatch.TakeSpec` | src/main/java/com/dirk/commands/tournament/match/TakeAsCommentatorCommand.java:72-172 | a guard failure happens exactly when a guard fails. `Taken` names the first matching row, and its value is the claim rule applied to that row's cell. `AlreadyListed` means the name is among the first matching row's entries. Not-found means no row has the id |
| `TakeMatch.Schedule.WriteCell` | src/main/java/com/dirk/commands/tournament/match/TakeAsCommentatorCommand.java:156 | one cell of the role's column is overwritten; nothing else changes |
| `TakeMatch.Schedule.Claim` | src/main/java/com/dirk/commands/tournament/match/TakeAsCommentatorCommand.java:122-156 | the roster update of the matching row gives the claim rule's outcome for that row's cell; when rejected the sheet is unchanged, otherwise only that cell of the role's column is overwritten |
| `TakeMatch.Schedule.Execute` | src/main/java/com/dirk/commands/tournament/match/TakeAsCommentatorCommand.java:69-172 | the outcome is `TakeSpec`. The guards come in source order: no tournament, missing role, not set up, missing or empty id. Without a `Taken` outcome the sheet is unchanged. With one, only that row's cell in the role's column changes |
| `TakeMatch.GuardsPrecedeSheet` | src/main/java/com/dirk/commands/tournament/match/TakeAsRefereeCommand.java:72-104 | a failing guard fixes the outcome whatever the spreadsheet holds |
| `TakeMatch.OnlyFirstMatchingRow` | src/main/java/com/dirk/commands/tournament/match/TakeAsRefereeCommand.java:113-120 | when some row has the id, the outcome is either already-listed or a write at that row or an earlier one |
| `TakeMatch.RetakeIsRejected` | src/main/java/com/dirk/commands/tournament/match/TakeAsRefereeCommand.java:136-164 | after the written cell is stored, the same command with the same plain name is answered with already-listed |
| `TakeMatch.TakenCellLists` | src/main/java/com/dirk/commands/tournament/match/TakeAsRefereeCommand.java:145-156 | the written cell lists the earlier entries of that row's cell in order, then the caller |

A "plain name" is a display name that has no '/' and no leading or trailing
trim space (`JavaText.PlainName`). The round-trip lemmas need one, and a
repeated claim is rejected only for a plain name (`Roster.SecondClaimRejected`).
A name that is not plain is never found, so every claim by it writes the cell
(`Roster.NonPlainNameAlwaysWrites`). A name with a '/' is written as given,
but when the cell is read back it splits at every '/'. So a caller with such
a name is not recognised as already listed (for example,
`Roster.SlashNameClaimsAgain`: claiming the cell `"a/b"` as `"a/b"` writes
`"a / b / a/b"`). A name with a leading or trailing space, such as `"bob "`,
behaves the same way: the entries are trimmed and the name is not (for
example, `Roster.PaddedNameClaimsAgain`: the cell `"bob "` claimed as `"bob "` becomes
`"bob / bob "`).

## Left out

- Spreadsheet access: opening the sheet, reading ranges, reading a cell,
  writing a cell and re-synchronising the tournament. These are library
  calls whose code is not part of this model. Their results are inputs, and
  the write is `Schedule.WriteCell`.
- The lookup of the running tournament, the role-or-owner check and the
  set-up check are not part of this model. Their answers are the booleans of
  `Context`.
- Discord messaging and embed formatting. The message sent is the returned
  `Outcome`.
- The `catch (Exception)` path. Exceptions from the spreadsheet library,
  including a failed `(String)` cast of a non-text first cell, are not
  modelled. Match-id cells are strings.
- `TakeMatch.Schedule.Execute`, `TakeMatch.Guard` and `TakeMatch.TakeSpec`: the empty-id guard is a plain emptiness test. The Java code compares with `==`, which is reference equality on strings. It therefore rejects only the interned empty string. A parsed empty id may get past the guard and then match a row whose first cell is empty.
- `getSheetRowAsString` is not part of this model. The model assumes it
  returns null for an empty cell. If it returns `""` instead, the cell
  becomes `" / "` plus the name (`Roster.EmptyCellKeepsEmptyEntry`).
- The argument parsing that produces the match id is not part of this
  model. The id is `Option<string>`: absent when no argument was given.
- The commands' registration data (command name, description, group,
  admin-only and guild-only flags) and the empty single-argument `execute`
  overload are not modelled.
- `ServerTrafficListener.java` and `DeleteGlobalCommand.java` are not part
  of this model. They only forward events and call the repository.
