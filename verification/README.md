# LuminariMUD: verified models of its core algorithms

This project models parts of the LuminariMUD game server, a C program, in Dafny 4.11 and proves what they keep and
what they compute. `dafny verify dfyconfig.toml` checks all of it.

| module | source | subject |
|---|---|---|
| `AsciiMap` | `src/asciimap.c` | the recursive flood fill that draws a map of the surroundings into a grid |
| `Account` | `src/account.c` | saving an account in one transaction, several connected views, staged removal of a character |
| `AccountRuns` | `src/account.c` | runs of edits, saves, loads and removals by several connections |
| `SocialCommands` | `src/act.social.c` | sorting the socials, merging them into the command table, binary search |
| `AiCache` | `src/ai_cache.c` | an expiring linked list with eviction |
| `JsonText` | `src/ai_service.c` | JSON string escaping into a bounded buffer and two parsers (section 7 of RFC 8259) |
| `RateLimiter` | `src/ai_service.c` | two lazily opened fixed windows |
| `Bardic` | `src/bardic_performance.c` | two performance slots per character under a command and a global pulse |
| `BanFile` | `src/ban.c` | the list of banned sites and the file it is written to and read from |
| `ObjectListing` | `src/act.informative.c` | grouping equal objects in a listing |
| `History` | `src/act.informative.c` | bounded histories of messages, as linked lists |
| `WhereOutput` | `src/act.informative.c` | a growing text buffer |
| `ActionQueue` | `src/actionqueues.c` | a linked queue with first and last pointers |

Code that changes state step by step is modelled by classes and methods with loops: `array2` for the grid, heap nodes
with `next` pointers for the lists of the cache, the histories and the queue, `array` for the socials and the
buffers.  Each such method is proved against a function or a predicate on values, and the main results are lemmas about
these over all inputs or all runs.

What the proofs showed about the code:

- The minimap size may be configured up to 12 (`src/olc/cedit.c:3408`); on a room map the search stays on its grid
  exactly up to size 11 (`MinimapWindowFits`).
- No room is ever larger than one cell, so the branches of the map for larger rooms are dead (`RoomsAreSingleCells`).
- The name of an account is a unique key (`sql/master_schema.sql:16-29`), so the first save of an account whose name
  somebody registered meanwhile overwrites that row and takes its id (`SecondRegistrationOverwrites`,
  `TwoRegistrations`); a first save gets a fresh id exactly if nobody has the name (`FirstSaveIsFresh`).
- Loading an account marks it clean even when the unlocks were not read or did not fit, values of an earlier load stayed
  behind them, or the password was cut; `LoadAccount` says exactly when a loaded account is stored, and a save right
  after a load always returns true (`LoadThenSave`, `UnfaithfulLoad`).  `SaveChecked` says exactly when a save that
  returns true has stored the account; over a run it has as long as loads were faithful and saves took nothing from
  another connection (`AccountRuns.Run`).
- Storing the names links the rows that exist; a listed name without a row in `player_data` stays unlinked although the
  save returns true (`LinkedIfThere`).
- A save returns true exactly if the account has a name and no query fails (`SaveChecked`); in a run in which none
  fails every save of a named account stores it, as long as every step is harmless (`AccountRuns.Run`).
- The hash cannot tell a missing e-mail from an empty one (`EmptyEmailIsMissed`).  The program does not make that edit:
  it sets an e-mail only when it loads an account or copies one between views.
- The removal loop of the cache cleanup has a bound that shrinks while it runs, so an arbitrary list is brought to
  the limit exactly when its unexpired entries number at most twice the limit and one (`CleanupReachesLimit`).
- `json_escape_string` returns -1 for a text cut in front of a two-character escape, but a length like that of a
  complete text for one cut in front of any other (`CutsEscapeExactly`, `CutsSilentlyExactly`, `SilentTruncation`).
- The rate limiter is described as a sliding window but is a fixed one.  Within the length of one window it never grants
  more than twice the limit (`SlidingBound`).  It keeps the minute limit in every interval exactly if the hour limit
  is at most half of it (`MinuteLimitHolds`), and the hour limit exactly if that is at least 61 times the minute limit
  (`HourLimitHolds`); with the program's own 60 and 1000 it keeps neither (`ProgramLimitsFail`).  Intervals include both
  ends.
- One pulse need not settle a conflict between bards (`OnePulseIsNotEnough`): it leaves two performers in a room only if
  both had two performances, and without other effects exactly if both had two and are connected (`Pulse`).  Two
  pulses always settle it (`TwoPulses`).
- Banning compares the site that was typed, but stores its first 49 characters, so sites stay unique exactly when
  nobody holds the stored one (`UniqueAfterBan`), and a longer site can be banned twice (`LongSiteIsBannedTwice`).
- The combined command table is sorted behind the reserved prefix exactly if `cmd_info` is (`CombinedIsSorted`), and it
  is not: `src/interpreter.c:157-158` lists "northe" before "ne" (`ProgramTableIsNotSorted`).
- When invisible objects are listed too, a group with an invisible first member is shown by its second member, visible
  or not (`AlwaysShowsOneOfTwo`).

## Model

| member | source | states |
|---|---|---|
| `AsciiMap.Compass` | src/constants.c:3054 | for every cell and direction the reverse of a direction is another one whose step leads back; north is one step up, east one to the right, a diagonal is the sum of both, and only up and down stay on the cell |
| `AsciiMap.DoorsAreHalfway` | src/asciimap.c:208-211 | a door lies where the room behind it puts the same mark for the way back; the doors of up and down share the cells of the eastern diagonals; which direction has which mark |
| `AsciiMap.Cut` | src/asciimap.c:322-328 | the first direction whose open exit has a reverse exit leading elsewhere; the search of a room ends there and no earlier open exit is like that |
| `AsciiMap.DoorsAreBetweenRooms` | src/asciimap.c:204-210 | parity and bounds: from a room cell of the window every neighbour is a room cell, every door cell is on the grid and, on a room map, never a room cell |
| `AsciiMap.RoomsAreSingleCells` | src/asciimap.c:265-310 | with positions and sizes 0 neither the virtual-exit branch, which would index a table of four by ten directions, nor the checks for a door elsewhere are ever taken |
| `AsciiMap.Mapper.EntryPosition` | src/asciimap.c:356-378 | the positions handed on are 0 again, so they stay 0 |
| `AsciiMap.CellStays` | src/asciimap.c:263-394 | a cell that a step does not write stays right while drawn cells keep their trails and doors stay marked |
| `AsciiMap.PictureAfter` | src/asciimap.c:242-396 | a step that changes one cell keeps the whole picture as soon as that cell is right |
| `AsciiMap.EnterKeepsPicture` | src/asciimap.c:253-257 | drawing a room on entry keeps the picture and marks the cell as being searched |
| `AsciiMap.StampKeepsPicture` | src/asciimap.c:330-355 | drawing a door keeps the picture, and the door is marked afterwards, whichever mark was there |
| `AsciiMap.LeaveKeepsPicture` | src/asciimap.c:322-328 | leaving a room, finished or as a maze, keeps the picture with the cell no longer being searched |
| `AsciiMap.Mapper.MapArea` | src/asciimap.c:242-396 | the recursive fill ends (cells left to draw decrease), stays on the grid, keeps the picture, and draws its room at the end of the given trail |
| `AsciiMap.Mapper.SearchExits` | src/asciimap.c:263-394 | the loop over the ten directions leaves the room finished: every open exit below the cut is dealt with, or the room is shown as strange |
| `AsciiMap.Mapper.Follow` | src/asciimap.c:330-392 | one followed exit gets its door and its room |
| `AsciiMap.Mapper.DrawDoor` | src/asciimap.c:330-355 | the first mark wins, except that up and north-east, down and south-east are drawn together |
| `AsciiMap.Mapper.BlankMap` | src/asciimap.c:441-443 | every cell is blank: an empty sector, or no door in the even columns of a room map |
| `AsciiMap.Mapper.DrawMap` | src/asciimap.c:571-580 | blanking, searching from the target room and marking the centre gives a finished drawing |
| `AsciiMap.DrawnTrailsAreFree` | src/asciimap.c:380-392 | every drawn cell lies at the end of a walk the search itself can make |
| `AsciiMap.MapIsSound` | src/asciimap.c:242-396 | a room cell that is not empty shows the room at the end of a walk of followed exits whose offsets add up to the cell's place |
| `AsciiMap.MapIsComplete` | src/asciimap.c:263-394 | from a drawn cell of the window every open exit below the cut leads to a cell that is not empty, through a marked door |
| `AsciiMap.FreeWalksAreDrawn` | src/asciimap.c:263-394 | where walks to one cell end in one room, every walk the search can make is drawn |
| `AsciiMap.MapShowsTheRegion` | src/asciimap.c:242-396 | in such a world a room cell is not empty if and only if a walk ends there, and then it shows the room where the walk ends |
| `AsciiMap.DoorsAreExact` | src/asciimap.c:330-355 | a cell between rooms is marked if and only if an open exit of a drawn room passes through it, and each stroke belongs to such an exit |
| `AsciiMap.OneExit` | src/asciimap.c:275-328 | from a room with one exit the next room is drawn, as it is, if and only if the exit leads somewhere, is not closed, is visible, and the reverse exit there, if any, leads back |
| `AsciiMap.ValuesHaveEntries` | src/asciimap.c:406-422 | every value a renderer meets has its own table entry, and a world map holds no door mark |
| `AsciiMap.CommandWindowFits` | src/asciimap.c:554-572 | for every requested size, which is brought to the nearest one from 1 to 12, the window of the map command keeps the search on the grid |
| `AsciiMap.MinimapWindowFits` | src/asciimap.c:678-690 | a minimap search stays on the grid if and only if the size is at most 12 on a world map and 11 otherwise |
| `Wrappers.SameName` | src/account.c:582-585 | names are the same in lower case if and only if they differ at most in the case of letters |
| `Account.QueryNamesAre` | src/account.c:1021-1034 | the link query mentions exactly the names before the first missing slot |
| `Account.LinkedNamesAre` | src/account.c:965-968 | the hash of the names sees exactly the names before the first slot that is missing or empty |
| `Account.MatchesIsStored` | src/account.c:952-976 | the four component hashes match the tables if and only if the tables hold the whole account: core row, unlock sets, and links of the names before the first empty slot |
| `Account.LinkMakesMatch` | src/account.c:1011-1045 | the link query makes the names component match |
| `Account.LinkKeepsOthers` | src/account.c:1011-1045 | it does not disturb another account none of whose names it mentions |
| `Account.ReplaceMakesMatch` | src/account.c:1047-1086 | deleting and inserting gives one account exactly the values and leaves all others alone |
| `Account.RowOf` | src/account.c:1196-1203 | an upsert writes the row with the account's id if there is one or nobody has the name, else the row with the name |
| `Account.UpsertKeepsKeys` | src/account.c:1196-1203 | it keeps names unique |
| `Account.SecondRegistrationOverwrites` | src/account.c:1196-1210 | a second registration of a name gets the id of the first one and overwrites its row |
| `Account.FirstSaveIsFresh` | src/account.c:1194-1211 | the first save of an account gets a fresh id if and only if nobody has its name, and then stores it and leaves agreeing views agreeing |
| `Account.WrittenMatches` | src/account.c:1194-1220 | a save leaves a component matching if and only if it writes it to the account's own row or the component matched already |
| `Account.SaveStoresExactly` | src/account.c:1162-1235 | a save stores the whole account if and only if every component it does not write matched before and the core row, if written, is its own |
| `Account.WrittenKeepsOthers` | src/account.c:1194-1220 | a save keeps every component of another account, unless it links one of that account's characters or writes to its row |
| `Account.Database.Commit` | src/account.c:1222-1227 | a failed commit changes nothing |
| `Account.View.MarkClean` | src/account.c:978-993 | afterwards no component is pending |
| `Account.View.DetectDirty` | src/account.c:995-1009 | the generations of a component differ if and only if it was pending, and nothing stops being pending |
| `Account.View.CopyFrom` | src/account.c:1100-1122 | a view takes over everything of another one but its name |
| `Account.Service.SaveCharacterLinks` | src/account.c:1011-1045 | true exactly if no query fails, and then exactly the names before the first missing slot are linked; else nothing changes |
| `Account.Service.SaveIntegerSet` | src/account.c:1047-1086 | true exactly if no query fails, and then the account has exactly the non-zero values |
| `Account.Service.SaveCore` | src/account.c:1194-1211 | true exactly if no query fails, and then the core row is written as the keys demand; a new account takes the id of that row, a fresh one if and only if nobody has its name |
| `Account.Service.Synchronize` | src/account.c:1088-1126 | every other view of the account holds the same state afterwards, views of other accounts are untouched |
| `Account.Service.RunTransaction` | src/account.c:1177-1245 | if no query fails all given components are committed and the result is true; else nothing is, and it is false |
| `Account.Service.PublishSave` | src/account.c:1227-1235 | after a commit nothing is pending, all views of the account hold the same state, and they agree with the tables if and only if it is stored |
| `Account.Service.SaveChecked` | src/account.c:1133-1255 | from any state between operations: the result is true if and only if the account has a name and no query fails; true: exactly the pending components were written, nothing is pending, all views of the account hold the same state, and memory is stored if and only if the other components matched and the core row is the account's own; false: the committed state is unchanged and what was pending still is; other views keep agreeing unless a character or their row is taken |
| `Account.EmptyEmailIsMissed` | src/account.c:945-950 | a missing and an empty e-mail hash alike |
| `Account.Service.CleanupDuplicates` | src/account.c:650-713 | whichever query fails, every name of every account keeps its rows, or one row if it was one of several of this account; if none fails no name of the account has two rows |
| `Account.DuplicateKeys` | src/account.c:740-768 | the query that looks for duplicates finds some if and only if some name of the account has several rows |
| `Account.Service.LoadCharacters` | src/account.c:726-798 | the names become those of all rows of the account, in order and without a gap, as many as there are slots for, and nothing behind them; they become none only if a query fails |
| `Account.AllRowsListed` | src/account.c:787-793 | the k-th slot holds the name of the k-th row of the account, and the slots behind the last row hold nothing |
| `Account.Service.LoadUnlocks` | src/account.c:812-871 | an unlock array holds exactly the stored set if and only if it was fetched, fits and nothing else stays behind it, or was not fetched and the array held the set before; both are fetched exactly if no query fails |
| `Account.Service.LoadAccount` | src/account.c:553-637 | whatever the view held before, a loaded account is marked clean, and is stored as it is in memory if and only if the password and both unlock sets were read in full; if no query fails, it is found if and only if some row has the name, and then all of it is read |
| `Account.Service.LoadThenSave` | src/account.c:553-637 | if no query fails an account that is there is found; a save right after a load returns true, and the account is stored if and only if the load was faithful |
| `Account.UnfaithfulLoad` | src/account.c:825-829 | a load that is not: one class is unlocked and the query for the classes fails |
| `Account.LoadedIsStored` | src/account.c:623-634 | the same for the values that were loaded |
| `Account.Service.BeginRemoval` | src/account.c:1605-1638 | true exactly if no query fails, and then a transaction is open in which the rows of the name are deleted |
| `Account.Service.CommitRemoval` | src/account.c:1646-1671 | success, unless a query fails: no connected view of the account holds the name, whichever reload query fails, nothing else is removed, and if none fails all other names are still listed; failure: nothing is removed |
| `AccountRuns.SaveLinksNothing` | src/account.c:1011-1045 | a save does not link a name that the view does not hold, or to another account |
| `AccountRuns.DisjointTakesNothing` | src/account.c:1011-1045 | a save of an account that is in the database takes nothing from connections that list other names only |
| `AccountRuns.Act` | src/account.c:1088-1255 | any edit, save, load or removal by any connection: without a failing query it does what it was asked for; a removed name stays gone unless an edit by a connection of the account, or of a new one, puts it back; all views keep agreeing unless a save takes something from another or writes a row that is not its own, or a load is unfaithful; and a harmless save that returns true has stored its account |
| `Account.AgreementStores` | src/account.c:1162-1235 | a save of a view that agrees with the database will store it if and only if it is new or the row that is written is its own |
| `Account.LinkedIfThere` | src/account.c:1019-1044 | a name the link query mentions is linked afterwards if and only if some row has it |
| `AccountRuns.Run` | src/account.c:1133-1255 | over every run: a removed name stays gone unless an edit puts it back; all views agree as long as every step is harmless, and up to there every save that returns true has stored its account; if no query fails every named account is saved, every account that is there is found, every removal succeeds, and as long as every step is harmless every save of a named account has stored it |
| `AccountRuns.RemoveThenRun` | src/account.c:1646-1671 | after a committed removal no run links a row of that name to the account again, unless an edit by one of its connections, or of a new account, puts the name back; the removal is committed unless a query fails |
| `AccountRuns.TwoRegistrations` | src/account.c:1194-1235 | of two connections that register one name the second takes over the account and the view of the first; both saves succeed if no query fails |
| `Account.SaveDoesNotRelink` | src/account.c:1022-1039 | a save of a view that does not hold a name leaves all rows of that name as they are |
| `SocialCommands.StrCmpDecides` | src/utils.c:2830-2845 | a string is smaller if and only if at the first place at which the two differ in lower case it ends or has the smaller character, and equal if and only if both are the same in lower case |
| `SocialCommands.ShorterNameFirst` | src/act.social.c:127-140 | of sorted socials a name comes before every longer one that begins with it |
| `SocialCommands.LeTotal` | src/utils.c:2830-2845 | the string comparison is antisymmetric |
| `SocialCommands.LeTransitive` | src/utils.c:2830-2845 | and transitive, so the sort is by a total preorder |
| `SocialCommands.SelectionSorts` | src/act.social.c:127-140 | taking the first of the least socials in every round gives a sorted permutation |
| `SocialCommands.OneOrder` | src/act.social.c:127-140 | and only one order, also of socials whose names are equal |
| `SocialCommands.SortSocials` | src/act.social.c:127-140 | the selection sort gives that sorted permutation |
| `SocialCommands.FirstAfter` | src/act.social.c:156-157 | the first entry behind the reserved prefix that sorts strictly after a name |
| `SocialCommands.MergeSocials` | src/act.social.c:142-170 | the merge stays within cmd_info and its allocation if and only if the socials fit; then every command and social is at its place, every place is taken, and each social carries its place as number |
| `SocialCommands.CreateCommandList` | src/act.social.c:118-172 | sorting and merging together |
| `SocialCommands.FitsExactly` | src/act.social.c:154-168 | the socials fit if and only if some entry behind the reserved prefix sorts after all of them |
| `SocialCommands.InfoIsNotSocial` | src/act.social.c:154-170 | a command and a social never get the same place, and the command comes first exactly when it is before the first entry that sorts after the social |
| `SocialCommands.CombinedIsSorted` | src/act.social.c:150-170 | the combined table is sorted behind the reserved prefix if and only if cmd_info is |
| `SocialCommands.ProgramTableIsNotSorted` | src/interpreter.c:149-158 | the program's cmd_info is not, and so neither is its combined table |
| `SocialCommands.NumbersIncrease` | src/act.social.c:161 | the numbers of the sorted socials increase, which the search relies on |
| `SocialCommands.FindAction` | src/act.social.c:228-252 | the search ends, probes only valid places, and returns the social with the number, or -1 if there is none |
| `SocialCommands.NumberIsPlace` | src/act.social.c:161-167 | an entry of the table has the number of a social if and only if it is that social |
| `AiCache.CleanupReachesLimit` | src/ai_cache.c:361-393 | a cleanup reaches the limit if and only if the unexpired entries number at most twice the limit and one |
| `AiCache.StepKeeps` | src/ai_cache.c:69-158 | every operation keeps keys unique, the size within the limit, and each record the last one stored under its key |
| `AiCache.RunKeeps` | src/ai_cache.c:69-158 | so does every run |
| `AiCache.HitIsLastStore` | src/ai_cache.c:179-214 | over any run a hit is the response last stored under the key, less than 3600 seconds before |
| `AiCache.RunComplete` | src/ai_cache.c:69-158 | while no more keys than the limit are stored, nothing that should still be answered is missing |
| `AiCache.CacheIsMap` | src/ai_cache.c:179-214 | then the cache answers exactly as a map with expiring entries |
| `AiCache.LoopRemoves` | src/ai_cache.c:362 | where the removal loop with the shrinking bound stops |
| `AiCache.OldestAreGone` | src/ai_cache.c:341-393 | no record that was removed expires later than one that is kept |
| `AiCache.Cache.Unlink` | src/ai_cache.c:295-310 | unlinking takes out exactly that entry and keeps the order of the others |
| `AiCache.Cache.Lookup` | src/ai_cache.c:179-214 | the loop finds what the specification finds; an expired entry is a miss |
| `AiCache.Cache.ClearAll` | src/ai_cache.c:234-256 | the list is empty and the counter 0 |
| `AiCache.Cache.RemoveExpired` | src/ai_cache.c:288-318 | the first pass keeps exactly the unexpired entries, in order |
| `AiCache.PartialSort` | src/ai_cache.c:341-359 | the array is permuted so that as many entries as will be removed stand first and expire no later than any after them |
| `AiCache.Cache.RemoveFirst` | src/ai_cache.c:361-393 | the removal loop takes away the first entries of the array, as many as the shrinking bound allows |
| `AiCache.Cache.Cleanup` | src/ai_cache.c:279-402 | both passes together are a cleanup of the specification; a list one over the limit is brought to the limit |
| `AiCache.Cache.StoreResponse` | src/ai_cache.c:69-158 | storing is a step of the specification: refresh in place, or add at the head and clean up |
| `JsonText.FitIsLongest` | src/ai_service.c:1587-1589 | the prefix that is kept is the longest one whose escape fits |
| `JsonText.EscapeString` | src/ai_service.c:1575-1669 | the buffer holds the escape of the longest prefix that fits; the result is its length, or -1 if a two-character escape is cut |
| `JsonText.CutsEscapeExactly` | src/ai_service.c:1594-1597 | -1 if and only if the escape of a prefix leaves room for one character and a two-character escape follows |
| `JsonText.CutsSilentlyExactly` | src/ai_service.c:1663-1668 | a text that does not fit is cut without -1 if and only if the escape of one of its prefixes fills the buffer |
| `JsonText.SilentTruncation` | src/ai_service.c:1663-1668 | of "ab" only "a" fits into two characters, and no escape is cut |
| `JsonText.EscapeIntoTwo` | src/ai_service.c:1575-1669 | escaping "ab" into a buffer of two characters leaves "a" there and gives 1 |
| `JsonText.UnescapeEscaped` | src/ai_service.c:1391-1424 | unescaping undoes escaping up to characters that are not plain, whatever follows |
| `JsonText.KeptExactly` | src/ai_service.c:1642-1659 | a text survives both if and only if it is printable ASCII, newline, return and tab |
| `JsonText.EscapedIsJson` | src/ai_service.c:1593-1660 | every escaped text is the inside of a JSON string (section 7 of RFC 8259), and stands for the text without what is dropped: non-ASCII and the control characters without a short escape |
| `JsonText.IndexOfIsFirst` | src/ai_service.c:1290 | the label that is found is the first one, and none is found only if there is none |
| `JsonText.FindClosingQuote` | src/ai_service.c:1321-1367 | the search with backward counting finds the first quote behind an even number of backslashes, within 10000 characters |
| `JsonText.Unescape` | src/ai_service.c:1385-1424 | the copy loop of the first parser computes the unescaped text |
| `JsonText.OllamaUnescape` | src/ai_service.c:1810-1847 | so does that of the second, although it leaves unknown escapes to the next round |
| `JsonText.ParseResponse` | src/ai_service.c:1266-1433 | the parser computes the specified content |
| `JsonText.ParseOllamaResponse` | src/ai_service.c:1766-1852 | the same for the other parser |
| `JsonText.EscapedQuotes` | src/ai_service.c:1593-1606 | in an escaped text no quote closes the string |
| `JsonText.ClosingQuoteIsAt` | src/ai_service.c:1326-1360 | a search that meets no closing quote before a place finds the one there, if it is not too far |
| `JsonText.ContentRoundTrip` | src/ai_service.c:1266-1433 | a text behind a content label that begins nowhere before is parsed back unchanged if and only if it is plain and its escape has at most 10000 characters |
| `JsonText.NothingButQuotes` | src/ai_service.c:1303-1318 | a field whose value does not begin with a quote behind blanks gives nothing |
| `JsonText.SimpleResponse` | src/ai_service.c:1266-1433 | `{"content":"hi"}` gives `hi` |
| `JsonText.OllamaRoundTrip` | src/ai_service.c:1766-1852 | a text behind a response label that begins nowhere before is parsed back unchanged if and only if it is plain and does not end in a backslash |
| `JsonText.SimpleOllamaResponse` | src/ai_service.c:1766-1852 | `{"response":"hi"}` gives `hi` |
| `RateLimiter.Limiter.Check` | src/ai_service.c:1130-1182 | one request, on both windows |
| `RateLimiter.Limiter.Reset` | src/ai_service.c:1187-1196 | both windows begin anew |
| `RateLimiter.RemainingGrants` | src/ai_service.c:1146-1177 | from now on no more than the rest of the window and k whole windows are granted before k windows after its end |
| `RateLimiter.SlidingBound` | src/ai_service.c:1130-1182 | over any run with a clock that does not go back, an interval of k windows sees at most k + 1 limits; twice the limit for one window |
| `RateLimiter.TwiceTheLimit` | src/ai_service.c:1130-1182 | twice the limit of the minute, and of the hour, can be granted within two seconds if the other limit is twice as large |
| `RateLimiter.BatchGrants` | src/ai_service.c:1163-1177 | of requests at once as many are granted as both open windows leave |
| `RateLimiter.BatchesGrant` | src/ai_service.c:1146-1177 | of full batches every minute as many are granted as the hour window leaves |
| `RateLimiter.MinuteLimitHolds` | src/ai_service.c:1115-1182 | no interval of a minute sees more than the minute limit if and only if that is not positive or at least twice the hour limit |
| `RateLimiter.HourLimitHolds` | src/ai_service.c:1115-1182 | no interval of an hour sees more than the hour limit if and only if that is not positive or at least 61 times the minute limit |
| `RateLimiter.ProgramLimitsFail` | src/ai_service.c:583-585 | with the default limits neither holds |
| `Bardic.EveryEntryIsValid` | src/bardic_performance.c:433-487 | every number of the table is a valid performance, and no other |
| `Bardic.NormalizedKeepsSound` | src/bardic_performance.c:489-514 | normalising keeps every valid performance once and in order, restores the slot invariant, and does nothing to slots in order |
| `Bardic.EndedRemoves` | src/bardic_performance.c:270-305 | ending one slot removes that performance and no other; the second one becomes the lead |
| `Bardic.BegunPlays` | src/bardic_performance.c:767-836 | a new performance is added behind the lead, or replaces the lead and keeps the other; the slot invariant stays |
| `Bardic.TransitionsAre` | src/bardic_performance.c:767-793 | a start is refused for want of a slot, or takes the second slot, exactly in these cases |
| `Bardic.StartedKeeps` | src/bardic_performance.c:755-852 | a start keeps the slot invariant, and nothing but the requested performance is new |
| `Bardic.Performer.Stop` | src/bardic_performance.c:253-268 | both slots, the flag and the crescendo are cleared |
| `Bardic.Performer.StopSlot` | src/bardic_performance.c:270-305 | the method ends one slot as specified |
| `Bardic.Performer.Normalize` | src/bardic_performance.c:489-514 | the method normalises as specified |
| `Bardic.Game.CanPerform` | src/bardic_performance.c:540-648 | true if and only if none of the disqualifiers holds and every other performer in the room is a player without a connection; such players are stopped, nobody else changes |
| `Bardic.Game.AbleIsFit` | src/bardic_performance.c:540-620 | nothing disqualifies a character exactly if it knows music or is a monster, is in a room, has no negative hit points, is upright, and is neither silenced nor in a soundproof room or performs the dance or the act |
| `Bardic.Game.Admit` | src/bardic_performance.c:761-815 | a start is admitted, and into which slot, exactly under the stated conditions |
| `Bardic.Game.DoPerform` | src/bardic_performance.c:651-853 | for every state and request: the slot invariant holds afterwards, and the command did exactly what the request asks of the normalised slots |
| `Bardic.StartsExactly` | src/bardic_performance.c:755-852 | in terms of the fields, for every character in order and without other effects: the performance starts if and only if it is known and new, nothing disqualifies the character, nobody disturbs it, an action is left and a slot is there; then it is the lead or the second one as stated, and else nothing changes |
| `Bardic.Debut` | src/bardic_performance.c:755-852 | an unhurt bard alone in a room starts any performance it knows |
| `Bardic.Game.ProcessSlot` | src/bardic_performance.c:1478-1623 | a character that is not able or meets a connected performer loses exactly the slot; else the verse takes effect, and without other effects the song goes on unchanged |
| `Bardic.VersesTakeSlots` | src/bardic_performance.c:1771-1774 | verses keep the slot invariant and add nothing; in a conflict a slot is lost |
| `Bardic.Game.Verses` | src/bardic_performance.c:1771-1774 | in a conflict exactly the lead ends and the promoted performance is not played in that pulse; without other effects exactly what cannot be played ends |
| `Bardic.Game.PulseOne` | src/bardic_performance.c:1754-1818 | the pulse of one character: idle ones change nothing, unconnected players stop, others are normalised and go on, lose one slot or stop; without other effects exactly the lead ends in a conflict or if it cannot be played, else the second performance if it cannot be |
| `Bardic.SweepStep` | src/bardic_performance.c:1754-1774 | what holds of a pulse over the first n characters holds after the next one |
| `Bardic.DuelStep` | src/bardic_performance.c:1754-1774 | in a quiet pulse a connected character with two performances and such a rival loses exactly its lead |
| `Bardic.OnePulse` | src/bardic_performance.c:1749-1774 | two characters of one room both survive a pulse only if both had two performances, and a quiet one if and only if both had two and are connected |
| `Bardic.Game.Pulse` | src/bardic_performance.c:1749-1821 | the same for the loop over all characters, and without other effects whoever has the room to itself keeps what it can play; the slot invariant is kept, and given to everybody who performs |
| `Bardic.SoloStep` | src/bardic_performance.c:1754-1774 | in a quiet pulse a character that has the room to itself is touched by its own step only |
| `Bardic.GoesOnExactly` | src/bardic_performance.c:1749-1774 | in terms of the fields, for a connected performer in order that has the room to itself and without other effects: a pulse leaves it as it is if nothing disqualifies it, and else takes exactly the performance it cannot play, the lead first |
| `Bardic.OnePulseIsNotEnough` | src/bardic_performance.c:1749-1774 | of any two connected rivals with two performances each a quiet pulse ends exactly the leads, and both go on |
| `Bardic.Duet` | src/bardic_performance.c:1749-1774 | there are two such characters |
| `Bardic.TwoPulsesSuffice` | src/bardic_performance.c:1749-1774 | after two pulses no two characters of one room perform |
| `Bardic.Game.TwoPulses` | src/bardic_performance.c:1749-1821 | the same for two runs of the pulse from any state, while health, silence, posture and connections change as they like during and between them; the slot invariant is kept |
| `Bardic.Run` | src/bardic_performance.c:489-853 | over any run of commands, stops, pulses and time the slot invariant is kept |
| `BanFile.ToInt` | src/ban.c:58 | the loader's date is an int, unchanged if and only if it fits |
| `BanFile.ValueOfDigits` | src/ban.c:104 | decimal printing and reading are inverse |
| `BanFile.ScanBanReads` | src/ban.c:58-73 | reading a written line gives the ban back, its date cut to an int |
| `BanFile.LoadedWritten` | src/ban.c:99-120 | writing from the end and prepending while reading cancel out, whatever follows |
| `BanFile.RoundTrip` | src/ban.c:38-120 | loading what was written gives the same list in the same order if and only if every date fits an int |
| `BanFile.RewritingIsStable` | src/ban.c:38-120 | whatever is in the file, what is loaded from it is well-formed, and writing and loading it again changes nothing |
| `BanFile.UniqueAfterBan` | src/ban.c:168-182 | a ban keeps sites unique if and only if nobody holds the stored site, which the command checks only up to 49 characters |
| `BanFile.LongSiteIsBannedTwice` | src/ban.c:168-182 | any longer site passes the check a second time |
| `BanFile.BanList.Load` | src/ban.c:38-77 | the loop reads what the specification reads, and the list is well-formed |
| `BanFile.BanList.WriteOneNode` | src/ban.c:99-106 | the recursion appends the text of the list from its end |
| `BanFile.BanList.DoBan` | src/ban.c:151-198 | which bans are accepted, what is added, when sites stay unique, and that the new file loads to the list of the server if the dates fit |
| `BanFile.BanList.DoUnban` | src/ban.c:201-234 | the first ban of the site is removed and nothing else; if sites are unique it was the only one |
| `BanFile.BanList.IsBanned` | src/ban.c:79-97 | the result is the strictest type among bans whose site occurs in the host name, and 0 without one |
| `BanFile.SameInAnyCase` | src/ban.c:79-97 | the answer is the same for a host name in other cases |
| `BanFile.BanAndCheck` | src/ban.c:79-198 | once a site has been banned every host name that contains what is stored of it, in whatever case, is banned at least as strictly |
| `ObjectListing.EachGroupOnce` | src/act.informative.c:645-651 | no two lines show the same short description and name |
| `ObjectListing.LineStandsFor` | src/act.informative.c:655-669 | the number of a line is the number of objects that count and share both texts with the one that is shown |
| `ObjectListing.ShownExactly` | src/act.informative.c:655-683 | a group is shown if and only if a member counts and the member standing for it is not hidden |
| `ObjectListing.SumOfLines` | src/act.informative.c:655-684 | in every mode the shown counts add up to the number of objects that count in the shown groups |
| `ObjectListing.CountsConserved` | src/act.informative.c:655-684 | where no line can be hidden they add up to the number of objects that count |
| `ObjectListing.ShowsFirstVisible` | src/act.informative.c:666-669 | a line shows the first visible object of its group |
| `ObjectListing.AlwaysShowsOneOfTwo` | src/act.informative.c:662-669 | with invisible objects listed a line shows a visible one if and only if the first or the second member is visible |
| `ObjectListing.CountedEarlier` | src/act.informative.c:645-651 | the first inner loop finds out whether the group began earlier |
| `ObjectListing.CountGroup` | src/act.informative.c:655-669 | the second inner loop counts the group and finds the member that stands for it |
| `ObjectListing.ListObjects` | src/act.informative.c:633-688 | the nested loops yield exactly the specified lines |
| `History.CutOnce` | src/act.informative.c:3326-3336 | cutting after every message keeps as much as cutting once |
| `History.StampedIsPrefix` | src/act.informative.c:3312 | a line that fits is kept whole, a longer one up to its first 49151 characters |
| `History.KeepsLastHundred` | src/act.informative.c:3298-3341 | over any run each channel holds the last 100 messages sent to it, the list of all the last 100 of all channels, in order |
| `History.AllHearsAll` | src/act.informative.c:3338-3340 | every message reaches the list of all exactly once |
| `History.Append` | src/act.informative.c:3314-3324 | the new block is linked behind the last one |
| `History.Trim` | src/act.informative.c:3326-3336 | blocks are freed from the front until 100 are left |
| `History.Player.AddHistory` | src/act.informative.c:3298-3341 | the lists of the message's channel and of all change as specified, the other lists and the lists of monsters do not |
| `WhereOutput.GrownIsEnough` | src/act.informative.c:1919-1930 | the doubled capacity suffices, never exceeds what a size can count, and is less than twice what is needed |
| `WhereOutput.RunIsSound` | src/act.informative.c:1899-1947 | over any run the text and its terminator lie within the memory |
| `WhereOutput.HoldsUpToFailure` | src/act.informative.c:1899-1947 | the buffer holds all texts before the first failing request and none after it; it has failed exactly if there is one |
| `WhereOutput.HoldsEverything` | src/act.informative.c:1899-1947 | if every text can be formatted, memory is given and a size can count them all, nothing fails and the buffer holds all texts |
| `WhereOutput.FailsThere` | src/act.informative.c:1906-1937 | a request fails exactly for one of these three reasons |
| `WhereOutput.MovesAreFew` | src/act.informative.c:1919-1941 | over a whole run no more characters are moved than the last capacity, up to a quarter of all memory |
| `WhereOutput.OutputBuffer.Append` | src/act.informative.c:1899-1947 | the method appends, grows or fails as specified |
| `ActionQueue.FirstInFirstOut` | src/actionqueues.c:107-166 | over any run of enqueue, dequeue and clear, what left and then what is held is what arrived |
| `ActionQueue.LeavesInOrder` | src/actionqueues.c:107-166 | the k-th item to leave is the k-th that arrived |
| `ActionQueue.Enqueue` | src/actionqueues.c:107-127 | the list grows by one element at the back; size and last pointer follow |
| `ActionQueue.Dequeue` | src/actionqueues.c:143-166 | the first item is taken; the last pointer is null exactly when the queue is empty |
| `ActionQueue.Peek` | src/actionqueues.c:198-206 | the first item, or nothing for a missing or empty queue |
| `ActionQueue.ClearQueue` | src/actionqueues.c:63-83 | clearing ends, frees every item in order and leaves the queue empty |
| `ActionQueue.ExecuteNextAction` | src/actionqueues.c:222-243 | only the first action can run, and it leaves the queue exactly when it does |

## Left out

- MySQL, CURL, threads, files and sockets: only success or failure of queries, byte strings and token streams are
  kept; the cache and the limiter are sequential.
- Allocation failure and freeing, except where a larger `where` buffer is asked for.
- Missing arguments (NULL account, key, response, string or limiter), which the functions turn away on entry; the queue
  functions are modelled with a missing queue.
- Messages to players, colour codes, logs, profiling and debug output; the texts that the map renderers print, of which
  only the table lookups are modelled.
- AsciiMap: sectors are required to lie in 0..36, and the window to leave one step of room; `MinimapWindowFits` says
  when it does. The comparison of the direction with the number of directions to follow is always true and not
  repeated.
- Account.SaveChecked: nested transactions (a save between begin and commit of a removal) are excluded by the
  requirement that no transaction is open; the experience shown to playing characters is not copied.
- Account: that names of accounts and of players are unique is taken from the keys of `sql/master_schema.sql:16-44`, that
  characters belong to accounts with an id from its foreign key, and that no unlock is 0 from the only code that writes
  them.  The id that MySQL reports after an update through the name key is taken to be that of the updated row.
- AccountRuns.RemoveThenRun: requires that no connection with an unsaved new account lists the name, since such an
  account takes over the row of its own name; linking and creating characters outside of a save is not among the
  actions.
- Account: whether a text can be escaped and a query fits into its buffer is arbitrary, and counts as a query that fails
  or not; hashes are free of collisions; the fixed arrays of names, unlocks and generations are fields of type `seq`;
  a failed COMMIT discards the transaction; generations wrap at 64 bits.
- Account.Service.CleanupDuplicates: which of several rows of one name the database deletes first is not modelled.
- SocialCommands.CreateCommandList: requires that cmd_info ends with its terminator; reading past it, when a social
  sorts after the terminator, is the result `ok == false`.
- AiCache: keys are compared as strings; the clock of an operation is a parameter, and need not be ordered except in
  `CacheIsMap`.
- JsonText: strings hold no NUL; the fixed-size search counts characters, and a caller's request building and retries are
  not modelled.
- RateLimiter.SlidingBound: is about runs without the administrator's reset, which opens new windows at will.
- Bardic: dice, saving throws, damage, affects and instruments are arbitrary outcomes that may stop, hurt, silence or
  disconnect anybody, or nobody in a pulse called quiet; action costs are left out; characters do not move, die or
  learn during a pulse; names are resolved before the command.
- BanFile.BanList.DoBan: the listing of bans is left out; names and sites are words, as the command parser yields them.
- BanFile: a file with tokens longer than the loader's buffers is read as if the buffers were long enough; a number
  beyond an int keeps its lower 32 bits; the list is a field of type `seq`.
- BanFile.BanList.IsBanned: the host name is lowered in a copy, not in place.
- ObjectListing: the texts of the lines; descriptions and names are never NULL.
- History: the format of the time stamp, which is a parameter read twice per message as the code does.
- WhereOutput: formatting itself; a size has 64 bits.
- ActionQueue: the list shown by the queue command, and the abbreviation of its argument.
- The remaining commands of these files, `src/ai_security.c`, `src/ai_events.c`, `src/actions.c` and
  `src/clan_services.c`: storing an API key, scheduling, single checks and calls into code that is not modelled.
