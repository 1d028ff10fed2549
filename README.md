# Bug tracker core, modelled in Dafny

The system is a small command-line bug tracker written in Java. Bug reports
are kept in a plain text file with one report per line, in the form
`id,title,description,STATUS,PRIORITY,assignedTo,c1|c2|...`. There is no
quoting or escaping. `BugManager` reloads the whole file for every
operation, changes the first report whose id matches, and rewrites the whole
file. It also answers keyword/status searches with an optional stable sort.
`Bug` is the mutable report object. `StatisticsManager` counts reports by
status, priority and assignee, and counts the open ones. `UserManager` keeps
an in-memory list of accounts whose names are compared ignoring case, and
records who is logged in.

The Dafny modules follow that structure:

| module | file | models |
|---|---|---|
| `Outcomes` | `outcomes.dfy` | `Option`, `Result`, and `Map.getOrDefault` |
| `Strings` | `strings.dfy` | The Java string operations the core uses: `toUpperCase`/`toLowerCase`/`equalsIgnoreCase` (ASCII), `trim`, `contains`, `split(",", -1)`, `split("\\|")`, `String.join`, `Integer.parseInt` and `%d` |
| `Enums` | `enums.dfy` | `Status`, `Priority` and `Role` in their declared order, with `name()`, `ordinal()` and `valueOf` |
| `Lists` | `lists.dfy` | Filtering and mapping of lists, and a stable insertion sort that stands for `List.sort` |
| `Bugs` | `bug.dfy` | `class Bug` and its record view `BugRecord` |
| `Users` | `user.dfy` | `class User` |
| `BugFormat` | `bug_format.dfy` | The file format: `readLine`, the per-line parse of `loadBugs`, and the line `saveBugs` writes. Lemmas say when saving and loading are inverse, and exactly how they fail to be. |
| `BugManagement` | `bug_manager.dfy` | `class BugManager`. Its backing file is the field `medium` (`None` when the file does not exist). It also defines record-level specifications of each operation. |
| `Statistics` | `statistics.dfy` | The counting loops of `StatisticsManager` |
| `UserManagement` | `user_manager.dfy` | `class UserManager` |

Each imperative operation is a method. Its postcondition ties the result
and the new state to a specification function of the old state:
- `ParseMedium` for `loadBugs`;
- `Serialize` for `saveBugs`;
- `Deleted`, `Updated` and `Commented` for the three mutators;
- `Search` for `searchBugs`;
- `Tally` and `Represents` for the count maps;
- `FirstNamed` and `Filter` for the user registry.

Lemmas then prove what the source promises about those functions.

Three behaviours of the program that a reader might not expect:
- A seven-field line whose id is not a number makes `Integer.parseInt`
  throw. The exception is unchecked, so the `IOException` handler of
  `loadBugs` does not catch it, and it leaves every operation that loads.
  The model returns `Err(IdNotANumber(text))` from every loading operation
  and writes nothing. It does not skip the line.
- The caller's id rule, `max(ids).orElse(0) + 1`, gives 1 for an empty
  store, and wraps to the smallest `int` after the largest (`NextId`).
- Ids are not unique. `addBug` appends a report even when its id is taken,
  and every lookup then finds the first one.

## Model

| member | source | states |
|---|---|---|
| `Strings.ToUpper` | src/managers/StatisticsManager.java:15 | Definition: `toUpperCase`, each ASCII letter a-z replaced by its capital, every other character kept |
| `Strings.ToLower` | src/managers/BugManager.java:244-246 | Definition: `toLowerCase`, each ASCII letter A-Z replaced by its small letter, every other character kept |
| `Strings.EqualsIgnoreCase` | src/managers/UserManager.java:21 | Definition: `equalsIgnoreCase`, equal length and each pair of characters equal, equal upper-cased or equal lower-cased |
| `Strings.Trim` | src/managers/BugManager.java:39 | Definition: `trim`, every leading and trailing character up to `' '` removed |
| `Strings.Contains` | src/managers/BugManager.java:245-246 | Definition: `contains`, the needle occurs at some position of the text |
| `Strings.SplitAll` | src/managers/BugManager.java:28 | Definition: `split(d, -1)`, every piece between delimiters, trailing empty pieces included |
| `Strings.Join` | src/managers/BugManager.java:69 | Definition: `String.join`, the parts with the delimiter between neighbours |
| `Strings.JavaSplit` | src/managers/BugManager.java:41 | Definition: `split("\\|")`, a string without the delimiter whole, otherwise the pieces with the trailing empty ones dropped |
| `Strings.ParseInt` | src/managers/BugManager.java:31 | Definition: `Integer.parseInt`, an optional sign and at least one ASCII digit whose value fits 32 bits; anything else is none |
| `Strings.IntToString` | src/managers/BugManager.java:70-71 | Definition: `%d`, a minus sign for a negative number, then its decimal digits |
| `Strings.LowerEqualIffEqualsIgnoreCase` | src/managers/StatisticsManager.java:52 | Two strings have equal lower-cased forms exactly when they are equal ignoring case, in both directions |
| `Strings.TrimOfTrimmed` | src/managers/BugManager.java:39 | `trim` leaves a string with no space at either end unchanged |
| `Strings.TrimStartShape` | src/managers/BugManager.java:39 | Stripping leading spaces gives a suffix that does not start with a space; it is empty exactly when every character is a space |
| `Strings.TrimEndShape` | src/managers/BugManager.java:39 | Stripping trailing spaces gives a prefix that does not end with a space; it is empty exactly when every character is a space |
| `Strings.TrimDropsTrailingSpace` | src/managers/BugManager.java:39 | One trailing character `<= ' '` does not change the result of `trim` |
| `Strings.TrimStartSpaces` | src/managers/BugManager.java:39 | Leading spaces do not change the result of stripping leading spaces |
| `Strings.TrimEndSpaces` | src/managers/BugManager.java:39 | Trailing spaces do not change the result of `trim` |
| `Strings.IndexOfAny` | src/managers/BugManager.java:28 | The result is the first position holding a delimiter, or the length when there is none |
| `Strings.SplitAllAt` | src/managers/BugManager.java:28 | The first delimiter splits off the piece in front of it, and the rest is split on |
| `Strings.SplitAllOfFree` | src/managers/BugManager.java:28 | A string without the delimiter splits into itself alone |
| `Strings.SplitJoin` | src/managers/BugManager.java:28 | `split(d, -1)` undoes `String.join(d, ...)` on at least one part when no part holds `d` |
| `Strings.SplitAllCount` | src/managers/BugManager.java:28 | `split(d, -1)` gives exactly one piece more than there are occurrences of `d` |
| `Strings.SplitJoinCount` | src/managers/BugManager.java:28 | Joining and then splitting never gives fewer pieces than parts, and gives more when some part holds the delimiter |
| `Strings.DropTrailingEmpty` | src/managers/BugManager.java:41 | The result is a prefix of the pieces that does not end in an empty piece, and everything dropped is empty |
| `Strings.IntWrap` | src/main/Main.java:381 | Java's 32-bit `int` result of an exact value: in range, equal to it modulo 2^32, and equal to it when it is in range |
| `Strings.ParseIntToString` | src/managers/BugManager.java:31 | `Integer.parseInt` of the `%d` text of every 32-bit integer gives that integer back |
| `Strings.NatToStringDigits` | src/managers/BugManager.java:70 | The `%d` text of a non-negative number is a non-empty string of digits whose decimal value is that number |
| `Enums.StatusValueOf` | src/managers/BugManager.java:205 | `Status.valueOf` gives a constant whose name is exactly the text, or none when no constant has that name |
| `Enums.PriorityValueOf` | src/managers/BugManager.java:219 | The same for `Priority.valueOf` |
| `Enums.NamesAndOrdinalsDistinct` | src/main/Main.java:168 | Constants with equal names or equal ordinals are the same constant, for both enumerations |
| `Enums.NamesAreUpperCase` | src/managers/StatisticsManager.java:15 | `name().toUpperCase()` is `name()` for every status and priority |
| `Lists.SortBy` | src/managers/BugManager.java:262-264 | Definition: stable ascending insertion sort by an integer key, standing for `List.sort` with an ordinal comparator |
| `BugFormat.StringToStatus` | src/managers/BugManager.java:203-209 | The result is the status named by the upper-cased text, or none exactly when no status has that name |
| `BugFormat.StringToPriority` | src/managers/BugManager.java:217-223 | The result is the priority named by the upper-cased text, or none exactly when no priority has that name |
| `BugFormat.StatusOrDefault` | src/managers/BugManager.java:158-160 | An unrecognised status text becomes NEW, and a recognised one becomes its constant |
| `BugFormat.PriorityOrDefault` | src/managers/BugManager.java:163-165 | An unrecognised priority text becomes LOW, and a recognised one becomes its constant |
| `BugFormat.StringToStatusOfName` | src/managers/BugManager.java:203-223 | Each constant's own name, upper or lower case, is recognised as that constant |
| `BugFormat.Lines` | src/managers/BugManager.java:26-27 | Definition: the lines `readLine` returns, each ended by "\n", "\r" or "\r\n"; the last needs no terminator, and a final terminator adds no line |
| `BugFormat.FormatLine` | src/managers/BugManager.java:69-77 | Definition: the line written for one bug, its id in `%d`, title, description, status name, priority name, assignee and the `|`-joined comments, joined by commas |
| `BugFormat.Serialize` | src/managers/BugManager.java:66-78 | Definition: each bug's line followed by "\n", in list order |
| `BugFormat.ParseComments` | src/managers/BugManager.java:38-45 | Definition: the comments field trimmed, then no comments when empty, otherwise its `split("\\|")` pieces |
| `BugFormat.ParseLine` | src/managers/BugManager.java:28-51 | Definition: one line is skipped unless its `split(",", -1)` has seven fields. It is a bad id when `parseInt` rejects the first field. Otherwise it is the record of the fields, with status and priority defaulted and comments parsed. |
| `BugFormat.ParseLines` | src/managers/BugManager.java:25-54 | Definition: the records of the parsed lines in order, skipped lines left out, and the first bad-id line ending the load with its text |
| `BugFormat.ParseMedium` | src/managers/BugManager.java:18-59 | Definition: no records for an absent file, otherwise `ParseLines` of its lines |
| `BugFormat.LinesCons` | src/managers/BugManager.java:27 | A line without line breaks, followed by "\n", is read back as the first line, and the rest is read on |
| `BugFormat.TwoLines` | src/managers/BugManager.java:27 | Two lines, each ended by "\n", are read as exactly those two lines |
| `BugFormat.FieldsOf` | src/managers/BugManager.java:70-77 | `saveBugs` writes exactly seven fields per bug |
| `BugFormat.SkippedByCommaCount` | src/managers/BugManager.java:28-30 | A line is skipped exactly when it does not hold exactly six commas |
| `BugFormat.IdIsTextBeforeFirstComma` | src/managers/BugManager.java:28-31 | On a line with six commas, the load fails exactly when the text before the first comma is not a number, and reports that text. Otherwise the record's id is that text's value. |
| `BugFormat.FirstFieldSplit` | src/managers/BugManager.java:28 | Proof step of `IdIsTextBeforeFirstComma`: when the text before a comma has no comma, `split(",", -1)` gives that text first, then the pieces of the rest |
| `BugFormat.ParseLinesSnoc` | src/managers/BugManager.java:27-53 | Reading one more line appends that line's record, skips the line, or fails the load |
| `BugFormat.LoadedRecordsAreKeptLines` | src/managers/BugManager.java:28-53 | A successful load holds one record per seven-field line, in file order, and each record is the parse of its line |
| `BugFormat.KeptLinesParse` | src/managers/BugManager.java:28-53 | The parses of the seven-field lines are exactly the loaded records, in order |
| `BugFormat.LoadFailsOnBadId` | src/managers/BugManager.java:30-31 | A load fails exactly when some seven-field line has a non-numeric id, and the error names the first such line |
| `BugFormat.FirstBadId` | src/managers/BugManager.java:30-31 | A failed load has a first bad-id line, and the error reports that line's id text |
| `BugFormat.BadIdFails` | src/managers/BugManager.java:30-31 | Any bad-id line fails the whole load, whatever precedes or follows it |
| `BugFormat.FieldsAreClean` | src/managers/BugManager.java:70-77 | Fields without commas or line breaks make a line without line breaks |
| `BugFormat.ParseFormatLine` | src/managers/BugManager.java:28-45 | A written line parses back to its record, except that the comments become the parse of their joined text |
| `BugFormat.ParseJoinedComments` | src/managers/BugManager.java:38-45 | The comments come back unchanged when no comment holds `|`, the last is not empty, and the joined text is unchanged by `trim` |
| `BugFormat.StorableLineRoundTrip` | src/managers/BugManager.java:28-51 | A storable record survives being written as a line and read back |
| `BugFormat.SaveThenLoad` | src/managers/BugManager.java:66-77 | Loading what `saveBugs` wrote gives back the same records, when every record is storable |
| `BugFormat.SaveThenLoadLines` | src/managers/BugManager.java:66-77 | The same for the lines of the written file |
| `BugFormat.CommaLosesRecord` | src/managers/BugManager.java:28-30 | A comma in any text field or comment makes the written line more than seven fields, so the record is lost on reload |
| `BugFormat.CommentsOfEmptyField` | src/managers/BugManager.java:39-40 | An empty comments field gives no comments |
| `BugFormat.CommentsOfLoneBar` | src/managers/BugManager.java:39-44 | A field that is a lone `|` gives no comments |
| `BugFormat.InnerEmptyCommentKept` | src/managers/BugManager.java:41-44 | `x||y` gives three comments, the middle one empty |
| `BugFormat.TrailingEmptyCommentDropped` | src/managers/BugManager.java:41-44 | An empty last comment is lost on save and reload, and the other comments come back |
| `BugFormat.SpacesAroundCommentDropped` | src/managers/BugManager.java:39 | Spaces around a lone comment are trimmed away |
| `BugFormat.BarInCommentSplits` | src/managers/BugManager.java:41-44 | A comment holding `|` comes back as two comments |
| `BugFormat.BlankCommentLostOnResave` | src/managers/BugManager.java:39-44 | A blank last comment read from a file is kept by the load, but lost after a save and another load |
| `BugFormat.MalformedLineSkipped` | src/managers/BugManager.java:28-30 | A file with one well-formed line and one five-field line loads as one record |
| `BugFormat.ParseKeptThenSkipped` | src/managers/BugManager.java:30-53 | A parsed line followed by a skipped line loads as the one record |
| `BugFormat.ParseLinesCons` | src/managers/BugManager.java:51-52 | Proof step of `SaveThenLoadLines`: a parsed first line puts its record in front of the records of the rest |
| `Bugs.Bug.Value` | src/models/Bug.java:7-13 | The record view keeps the fixed id and the current comment list |
| `Bugs.Bug.constructor` | src/models/Bug.java:15-17 | The six-argument constructor stores its arguments, with an empty comment list |
| `Bugs.Bug.WithComments` | src/models/Bug.java:19-27 | The seven-argument constructor stores its arguments, and a null comment list becomes empty |
| `Bugs.Bug.SetTitle` | src/models/Bug.java:37 | Changes the title and nothing else |
| `Bugs.Bug.SetDescription` | src/models/Bug.java:38 | Changes the description and nothing else |
| `Bugs.Bug.SetStatus` | src/models/Bug.java:39 | Changes the status and nothing else |
| `Bugs.Bug.SetPriority` | src/models/Bug.java:40 | Changes the priority and nothing else |
| `Bugs.Bug.SetAssignedTo` | src/models/Bug.java:41 | Changes the assignee and nothing else |
| `Bugs.Bug.AddComment` | src/models/Bug.java:42 | Appends the comment: the list grows by one, earlier comments are unchanged, and no other field changes |
| `Bugs.Bug.CommentsAsString` | src/models/Bug.java:44-53 | Gives "No comments." exactly when the list is empty; otherwise the lines "(i+1). comment" joined by "\n" and trimmed |
| `Bugs.NumberedComment` | src/models/Bug.java:50 | Definition: the line for comment `i`, the number `i + 1` in `%d`, then ". ", then the comment |
| `Bugs.NumberedComments` | src/models/Bug.java:49-51 | Line `i` is the number `i + 1`, then ". ", then comment `i` |
| `Bugs.RenderedCommentsStartWithOne` | src/models/Bug.java:48-52 | A non-empty rendering starts with the digit 1, so it never equals "No comments." |
| `BugManagement.FirstIndexOf` | src/managers/BugManager.java:112-116 | The result is the first position with the id, or none exactly when no record has it |
| `BugManagement.UpdatedField` | src/managers/BugManager.java:154-169 | Choices 1-5 set only the title, description, status (default NEW), priority (default LOW) or assignee. Any other choice gives none. |
| `BugManagement.Deleted` | src/managers/BugManager.java:126-139 | Definition: none when no record has the id, otherwise the records without the first one that has it |
| `BugManagement.Updated` | src/managers/BugManager.java:149-175 | Definition: none for an unknown id or a choice outside 1-5, otherwise the records with the first match changed by `UpdatedField` |
| `BugManagement.Commented` | src/managers/BugManager.java:184-195 | Definition: none for an unknown id, otherwise the records with the comment appended to the first match |
| `BugManagement.DeleteRemovesFirstMatch` | src/managers/BugManager.java:126-139 | A delete finds nothing exactly when no record has the id. Otherwise it removes exactly the first match and keeps every other record in order, later duplicates included. |
| `BugManagement.UpdateChangesOneRecord` | src/managers/BugManager.java:149-175 | An update fails exactly for an unknown id or a choice outside 1-5. Otherwise it changes only the first match, keeps every id, and the record is found again at the same place. |
| `BugManagement.CommentAppendsToOneRecord` | src/managers/BugManager.java:184-195 | Adding a comment fails exactly for an unknown id. Otherwise it appends to the first match only, keeps that record's earlier comments, and leaves every other record unchanged. |
| `BugManagement.MaxId` | src/main/Main.java:380 | The largest stored id, or 0 for an empty store |
| `BugManagement.NextId` | src/main/Main.java:380-381 | Definition: `MaxId + 1` in 32-bit `int` arithmetic |
| `BugManagement.NextIdOfStore` | src/main/Main.java:380-381 | For 32-bit ids the rule gives a 32-bit id: 1 for an empty store, one more than the largest id below `Integer.MAX_VALUE`, and `Integer.MIN_VALUE` at it |
| `BugManagement.NextIdIsFresh` | src/main/Main.java:380-381 | No stored record has the id that rule gives, while every stored id is below `Integer.MAX_VALUE` |
| `BugManagement.NextIdWrapsOnto` | src/main/Main.java:380-381 | With ids `Integer.MAX_VALUE` and `Integer.MIN_VALUE` both stored, the rule gives `Integer.MIN_VALUE`, an id already taken |
| `BugManagement.KeywordActive` | src/managers/BugManager.java:237 | Definition: the keyword filter is on when the keyword is present and not blank after trimming |
| `BugManagement.MatchesKeyword` | src/managers/BugManager.java:244-246 | Definition: the lower-cased keyword, untrimmed, occurs in the lower-cased title or the lower-cased description |
| `BugManagement.Passes` | src/managers/BugManager.java:242-254 | Definition: a record passes when it matches the keyword (if that filter is on) and has the status (if that filter is on) |
| `BugManagement.SortKeyOf` | src/managers/BugManager.java:261-265 | Definition: sort by priority when the text equals "priority" ignoring case, otherwise by status when it equals "status", otherwise none |
| `BugManagement.Ordered` | src/managers/BugManager.java:260-265 | Definition: the records as they are, or stably sorted by priority or status ordinal |
| `BugManagement.Search` | src/managers/BugManager.java:233-268 | Definition: the passing records in file order, then ordered by the sort key |
| `BugManagement.SearchSelectsPassing` | src/managers/BugManager.java:233-258 | The result has exactly the records passing both filters, each as often as stored; without a sort key it keeps file order |
| `BugManagement.SearchSortsStably` | src/managers/BugManager.java:260-265 | With "priority" or "status" in any case, the result ascends by the enumeration's declared order, and equal keys keep their file order |
| `BugManagement.SearchWithoutFiltersIsIdentity` | src/managers/BugManager.java:237-238 | With no keyword, a blank keyword, no status and no sort key, the search returns the loaded records as they are |
| `BugManagement.SortKeyIgnoresCase` | src/managers/BugManager.java:261-265 | Every sort key text sorts by priority exactly when it lower-cases to "priority", by status exactly when it lower-cases to "status", and otherwise, or when null, not at all |
| `BugManagement.PrioritySortExample` | src/managers/BugManager.java:261-262 | HIGH, LOW, LOW sorts as LOW, LOW, HIGH, with the two LOW records in their original order |
| `BugManagement.KeywordIsNotTrimmed` | src/managers/BugManager.java:237-246 | The keyword " crash" turns the filter on, but it does not match the title "crash", because the keyword itself is not trimmed |
| `BugManagement.SortTagged` | src/managers/BugManager.java:262-264 | Sorting the bug objects by a key of their records gives objects whose records are the sorted records |
| `BugManagement.SerializeSnoc` | src/managers/BugManager.java:68-78 | Writing one more bug appends its line and a line feed |
| `BugManagement.BugManager.constructor` | src/managers/BugManager.java:20-23 | The manager starts on the given file content, or on an absent file |
| `BugManagement.BugManager.LoadBugs` | src/managers/BugManager.java:18-59 | An absent file gives no bugs. Otherwise the result is one new, distinct bug object per record of `ParseMedium`, in order, or that load's bad-id error. |
| `BugManagement.BugManager.LoadLines` | src/managers/BugManager.java:25-54 | The read loop builds one new bug object per parsed line, in order, or stops with the error of the first bad-id line |
| `BugManagement.BugManager.NewBug` | src/managers/BugManager.java:51 | A new bug object holding the parsed record |
| `BugManagement.BugManager.SaveBugs` | src/managers/BugManager.java:66-82 | The file becomes the serialisation of the bugs' records, one line each, in order |
| `BugManagement.BugManager.UpdateBugs` | src/managers/BugManager.java:100-102 | The same as `SaveBugs` |
| `BugManagement.BugManager.AddBug` | src/managers/BugManager.java:89-93 | The file becomes the loaded records plus the new bug at the end, even when its id is already taken; a failed load writes nothing |
| `BugManagement.BugManager.FindBugById` | src/managers/BugManager.java:110-118 | The result is the first loaded bug with the id, or none exactly when no record has it; the file is not written |
| `BugManagement.BugManager.IndexOfId` | src/managers/BugManager.java:129-134 | The search loop finds the first position whose bug has the id |
| `BugManagement.BugManager.DeleteBug` | src/managers/BugManager.java:126-139 | Returns whether a record had the id. The file is rewritten with `Deleted`'s records on a hit and left alone on a miss or a failed load. |
| `BugManagement.BugManager.Without` | src/managers/BugManager.java:136 | Removing the found object leaves the records before and after it |
| `BugManagement.BugManager.ApplyField` | src/managers/BugManager.java:154-169 | The field switch changes the bug as `UpdatedField` says for choices 1-5, and does nothing otherwise |
| `BugManagement.BugManager.UpdateBugField` | src/managers/BugManager.java:149-175 | Returns whether the update applied. The file is rewritten with `Updated`'s records on success and left alone otherwise. |
| `BugManagement.BugManager.AddCommentToBug` | src/managers/BugManager.java:184-195 | Returns whether a record had the id. The file is rewritten with `Commented`'s records on a hit and left alone otherwise. |
| `BugManagement.BugManager.Matches` | src/managers/BugManager.java:242-254 | A bug matches exactly when it passes the keyword filter (if on) and the status filter (if on) |
| `BugManagement.BugManager.SearchBugs` | src/managers/BugManager.java:233-268 | The result's records are `Search` of the loaded records, or the load's error |
| `BugManagement.BugManager.SelectMatching` | src/managers/BugManager.java:241-258 | The filter loop keeps exactly the passing bugs, in order |
| `BugManagement.BugManager.SortResults` | src/managers/BugManager.java:261-265 | The result's records are the records ordered as the sort key asks |
| `BugManagement.SelectStep` | src/managers/BugManager.java:255-257 | One round of the filter loop appends the bug's record exactly when it passes the filters |
| `BugManagement.LoadKeeps` | src/managers/BugManager.java:51-52 | A parsed line adds its record, held by the new bug object, at the end |
| `BugManagement.LoadSkips` | src/managers/BugManager.java:30 | A line without seven fields adds nothing |
| `BugManagement.LoadAborts` | src/managers/BugManager.java:31 | A bad id fails the whole load |
| `BugManagement.ParseLinesAbort` | src/managers/BugManager.java:31 | Lines after a failure do not change the error |
| `Statistics.Bump` | src/managers/StatisticsManager.java:16 | Definition: one `put(key, getOrDefault(key, 0) + 1)` |
| `Statistics.Tally` | src/managers/StatisticsManager.java:12-17 | Definition: the map left by bumping each key in turn, starting from an empty map |
| `Statistics.BumpCounts` | src/managers/StatisticsManager.java:16 | One `put(key, getOrDefault(key, 0) + 1)` keeps the map an exact count and adds one to its total |
| `Statistics.TallyGrow` | src/managers/StatisticsManager.java:13-16 | One round of a counting loop extends the tally by the next key |
| `Statistics.TallyCounts` | src/managers/StatisticsManager.java:12-17 | The tally holds each key's exact number of occurrences, and its counts add up to the number of keys |
| `Statistics.TallyOfAll` | src/managers/StatisticsManager.java:12-17 | After all keys the map is exact, sums to the number of keys, and is empty exactly when there were none |
| `Statistics.EmptyCounts` | src/managers/StatisticsManager.java:20-21 | An exact count map is empty exactly when nothing was counted |
| `Statistics.StatusKey` | src/managers/StatisticsManager.java:15 | Definition: the upper-cased name of the bug's status |
| `Statistics.PriorityKey` | src/managers/StatisticsManager.java:34 | Definition: the upper-cased name of the bug's priority |
| `Statistics.AssigneeKey` | src/managers/StatisticsManager.java:52 | Definition: the lower-cased assignee |
| `Statistics.StatusKeyIsName` | src/managers/StatisticsManager.java:15 | The status key is a status's name exactly when the bug has that status |
| `Statistics.PriorityKeyIsName` | src/managers/StatisticsManager.java:34 | The priority key is a priority's name exactly when the bug has that priority |
| `Statistics.StatusCountIsNumberWithStatus` | src/managers/StatisticsManager.java:12-17 | The count under a status's name is the number of bugs with that status, and the name is present exactly when that number is not zero |
| `Statistics.PriorityCountIsNumberWithPriority` | src/managers/StatisticsManager.java:31-36 | The count under a priority's name is the number of bugs with that priority, and the name is present exactly when that number is not zero |
| `Statistics.AssigneeKeyIgnoresCase` | src/managers/StatisticsManager.java:51-54 | Two assignees share one count exactly when their names are equal ignoring case |
| `Statistics.CountByStatus` | src/managers/StatisticsManager.java:12-17 | The map counts each status key exactly, sums to the number of bugs, and is empty exactly when there are no bugs |
| `Statistics.CountByPriority` | src/managers/StatisticsManager.java:31-36 | The same for priority keys |
| `Statistics.CountByAssignee` | src/managers/StatisticsManager.java:50-54 | The same for lower-cased assignees |
| `Statistics.IsOpen` | src/managers/StatisticsManager.java:75-76 | Definition: the upper-cased status name is neither "RESOLVED" nor "CLOSED" |
| `Statistics.OpenMeansNewOrInProgress` | src/managers/StatisticsManager.java:75-76 | A bug is open exactly when its status is NEW or IN_PROGRESS |
| `Statistics.SummaryCounts` | src/managers/StatisticsManager.java:69-79 | The total is the number of bugs, and the open count is the number whose status is neither RESOLVED nor CLOSED, at most the total |
| `Statistics.OpenCountFromStatusCounts` | src/managers/StatisticsManager.java:73-79 | The open count is the number of NEW bugs plus the number of IN_PROGRESS bugs |
| `Users.User.constructor` | src/models/User.java:12-16 | Stores the username, password and role as given |
| `Users.User.SetRole` | src/models/User.java:31-33 | Replaces the role; username and password are constants |
| `UserManagement.Named` | src/managers/UserManager.java:21 | Definition: the user's name equals the given name ignoring case |
| `UserManagement.FirstNamed` | src/managers/UserManager.java:94-101 | The result is the first position whose username equals the name ignoring case, or none exactly when there is none |
| `UserManagement.EqualsIgnoreCaseEquivalence` | src/managers/UserManager.java:21 | Equality ignoring case is reflexive, symmetric and transitive |
| `UserManagement.UniqueNameIsFirstMatch` | src/managers/UserManager.java:46-51 | With unique names, any user matching a name is its first match |
| `UserManagement.SignedUpIsFound` | src/managers/UserManager.java:19-27 | A name that `signUp` accepted is found at the end of the list |
| `UserManagement.SignUpKeepsNamesUnique` | src/managers/UserManager.java:20-25 | Appending a user whose name nobody has ignoring case keeps names unique |
| `UserManagement.RemovedNameIsGone` | src/managers/UserManager.java:103-105 | After removal nobody of that name is left, and every other user is still there |
| `UserManagement.UserManager.constructor` | src/managers/UserManager.java:13-16 | A new manager has no users and nobody logged in |
| `UserManagement.UserManager.SignUp` | src/managers/UserManager.java:19-27 | Fails, changing nothing, exactly when a user has the name ignoring case. Otherwise it appends a new user with the given details and keeps names unique. The login is untouched. |
| `UserManagement.UserManager.Login` | src/managers/UserManager.java:30-38 | Succeeds exactly when some user matches the name ignoring case and the password exactly. It then records the name as typed; on failure it changes nothing. |
| `UserManagement.UserManager.Logout` | src/managers/UserManager.java:41-43 | Nobody is logged in afterwards, and the users are untouched |
| `UserManagement.UserManager.GetUserRole` | src/managers/UserManager.java:54-61 | The role of the first user matching the name ignoring case, or none |
| `UserManagement.UserManager.GetCurrentUserRole` | src/managers/UserManager.java:46-51 | None when nobody is logged in. Otherwise the role of the first user matching the name as typed at login, or none. |
| `UserManagement.UserManager.FindUserByUsername` | src/managers/UserManager.java:94-101 | The first user matching the name ignoring case, or none exactly when there is none |
| `UserManagement.UserManager.RemoveUser` | src/managers/UserManager.java:103-105 | Keeps exactly the users not matching the name, in order, and returns whether any was removed (exactly when the list got shorter). The login is untouched. |

## Left out

- File I/O:
  - `File.exists`, the reader and writer, and the logging of an `IOException` are not modelled.
  - The file is the field `BugManager.medium`. A write always succeeds.
- `UserManager.saveUsersToFile` / `loadUsersFromFile` are not modelled. They use Java object serialisation, a library format.
- `UserManager.getUsers` / `getCurrentUser` and the getters of `Bug` and `User` are not separate members. The model reads the fields directly: `username` and `password` of a `User` are constants, and `role` is a field.
- The printed text of `StatisticsManager`, and the order in which a `HashMap` lists its entries, are not modelled. The model gives the count maps and the two numbers behind the summary.
- `ToUpper`, `ToLower` and `EqualsIgnoreCase` work on ASCII only. Java's Unicode case mapping and locale rules are not modelled.
- `ParseInt` accepts ASCII digits only. Java's `Character.digit` also takes other Unicode digits.
- Null is not modelled except where the code handles it:
  - A null keyword, status filter or sort key is `None`.
  - A null comment list given to the constructor is `None`.
  - A null status or priority given to a `Bug` by the CLI cannot be expressed. It would make `saveBugs` throw.
  - A null username is not modelled.
- `BugManager.SaveBugs` writes through one field. The real `saveBugs` can fail halfway through a file, and the model has no partial file.
- `UserManagement.UserManager.RemoveUser` builds the kept list and then assigns it, where `removeIf` changes the list in place. No other reference to the list exists in the core, so nothing sees the difference.
- `BugManagement.BugManager.SortResults` stands for `List.sort`, a library call. It is defined by a stable insertion sort on (object, record) pairs, not by the library's merge sort. The two agree on the result, because a stable sort's result is unique.
- The command-line program (`Main`) is not part of this model: its prompts, menus, role checks and the shutdown hook. The id rule it applies when adding a bug is kept (`NextId`).
- Bug ids (`BugRecord.id`, `Bug.id`) are unbounded integers, where Java's are 32-bit `int`s. A load only produces ids in range, because `ParseInt` rejects the rest, and the save-then-load lemmas require them in range (`Storable`). An id outside the range can only be passed in by a caller, which Java's types rule out.
- BugManagement.NextIdIsFresh: promises a fresh id only while every stored id is below `Integer.MAX_VALUE`. At that id Java's `maxId + 1` wraps to `Integer.MIN_VALUE`, which can already be taken (`NextIdWrapsOnto`).
