# ArchDuke project core in Dafny

This is a Dafny model of the core of ArchDuke, a command-line project manager. A user opens a project by its number and then types commands that add, edit and delete its members and tasks. The model covers four parts of the program.

- **`TaskList`** (module `Tasks`, file `task_list.dfy`). This is the 1-based list of tasks of a project, kept as a `seq<Task>` field of a class.
  - `addTask`, `removeTask`, `getTask` and `getSize` work as on an `ArrayList`.
  - `editTask` splits its command on the markers ` i/`, ` t/`, ` p/`, ` d/`, ` c/` and ` s/`. It records where each of the flags `t p d c s` first occurs in a `TreeMap` keyed by position. It then hands out the split segments 2, 3, … to the flags that occur, in the order they occur in the text. A field that fails to parse stops the edit, but the fields before it stay set.
  - `editTaskRequirements` removes the listed requirement numbers. It sorts them *as strings* and removes them last to first, then appends the new requirements.
- **`ProjectInputController`** (module `Controller`, file `controller.dfy`). These are the command handlers. Each returns the lines shown to the user and changes the project (module `Projects`: a name, a member list and a task list).
  - `onCommandReceived` checks the project number.
  - There are the `add`, `edit` and `delete` handlers for members and tasks, and `role`.
  - The batch deletes sort the valid indices and reverse them, so tasks and members are removed highest index first. Every removal therefore removes the item that was at that index when the command was typed.
- **`CLIView`** table layout (module `TableView`, file `cli_view.dfy`).
  - Each row is framed as `|row   |` and padded with spaces to a width of 60, so every line is 62 characters.
  - A row longer than that is wrapped after the last space of each 60-character window.
  - A word longer than a window is cut into 59-character pieces, each followed by `-`.
  - A border closes each table above and below, and another border follows its first row.
- **`NullProject`** (module `NullProjects`, file `null_project.dfy`). This is the do-nothing project: every query answers null, 0 or false, and every command is ignored.

Java's `String.split`, `indexOf`, `Integer.parseInt` and `Arrays.sort` on `String[]` are modelled in `java_text.dfy` and `sorting.dfy`, with the Java behaviour this code depends on:
- trailing empty strings are dropped by `split`;
- `indexOf` returns -1 when the text is absent;
- `parseInt` accepts a sign and 32-bit values only;
- strings are compared character by character.

`positions.dfy` holds the 1-based removal used by lists (`RemoveAt`) and the removal of a set of positions (`Without`). An exception that a handler does not catch is modelled as a value: `Outcome.Threw(e)`, `Result.Err(e)` or `Response.Uncaught(e)`. The state is left as Java leaves it at the throw.

Where the written design of the program and its code disagree, the model follows the code:
- `editTask` is not atomic. A bad number part-way through leaves the earlier fields applied (`Tasks.EditIsNotAtomic`).
- `TaskList.addTask` does not reject duplicates. The controller checks names before it adds (`projectAddMember`, `projectAddTask`).
- `editTask` in `TaskList` reads ` t/`-style flags. The controller passes a `-t`-style string to `Project.editTask(int, String)`. Both are modelled as written.
- Requirement numbers are sorted as strings, so "10" comes before "9". Removal goes highest-first only when all numbers have the same number of digits (`Sorting.StringSortIsNotNumeric`, `Tasks.NineTenRemovesNinthAndEleventh`).

## Model

| member | source | states |
|---|---|---|
| Tasks.TaskList.constructor | src/main/java/models/task/TaskList.java:18-21 | a new task list is empty |
| Tasks.TaskList.AddTask | src/main/java/models/task/TaskList.java:27-29 | the task is appended: the new list is the old one followed by the task, so the size grows by one, the task is last and earlier tasks are unchanged |
| Tasks.TaskList.RemoveTask | src/main/java/models/task/TaskList.java:35-37 | for 1 <= i <= size, exactly the task at 1-based position i is removed and the others keep their order; otherwise IndexOutOfBounds is thrown and the list is unchanged |
| Tasks.TaskList.GetTask | src/main/java/models/task/TaskList.java:65-67 | for 1 <= i <= size, the result is the element at 0-based position i-1; otherwise IndexOutOfBounds |
| Tasks.TaskList.GetSize | src/main/java/models/task/TaskList.java:119-121 | the size is the length of the list |
| Tasks.TaskList.EditTask | src/main/java/models/task/TaskList.java:76-117 | the loop over the TreeMap entries leaves the list and outcome given by the edit specification EditTaskResult: no segment 1 gives ArrayIndexOutOfBounds, a bad index gives NumberFormat, and otherwise the flag entries are applied in key order |
| Tasks.TaskList.ApplyInOrder | src/main/java/models/task/TaskList.java:91-116 | the loop over the entries, with currentIndex starting at 2 and moving on only for a key other than -1, leaves the list and outcome that ApplyEntries gives for the whole entry list |
| Tasks.TaskList.SetField | src/main/java/models/task/TaskList.java:94-113 | one case of the switch: the list becomes ApplyFlag's result, or is unchanged when that statement throws |
| Tasks.ApplyFlag | src/main/java/models/task/TaskList.java:94-113 | one switch case fails exactly when the task index is out of range, the segment is missing, or, for p and c, the segment does not parse; on success the flagged field of task taskIndex-1 takes the segment's value and every other field and every other task is unchanged |
| Tasks.Put | src/main/java/models/task/TaskList.java:79-89 | TreeMap.put: the key now maps to the flag, every other entry is kept, and the keys stay in ascending order |
| Tasks.FlagOrderContents | src/main/java/models/task/TaskList.java:79-89 | the map built from the five indexOf calls is ascending, each entry is a flag keyed by its first position, and every flag that occurs is in it |
| Tasks.FlagPositionsDistinct | src/main/java/models/task/TaskList.java:80-89 | two different flags that occur never share a position, so no put overwrites another occurring flag |
| Tasks.PresentFlagsInTextOrder | src/main/java/models/task/TaskList.java:79-93 | the flags the loop applies (keys other than -1) are exactly the flags that occur in the text, strictly in the order of their positions |
| Tasks.PresentFlagsOfEntries | src/main/java/models/task/TaskList.java:92-93 | over any ascending, well-keyed entry list, the applied flags are those with a key other than -1, in increasing position |
| Tasks.FlagOrderIsApplicable | src/main/java/models/task/TaskList.java:79-89 | every entry is one of t, p, d, c, s and no flag is applied twice |
| Tasks.ApplyEntriesFrame | src/main/java/models/task/TaskList.java:92-116 | the loop changes only task taskIndex-1, leaves every field of it whose flag is absent (and its requirements) as it was, and with a bad index changes nothing |
| Tasks.ApplyEntriesAssigns | src/main/java/models/task/TaskList.java:91-116 | when the loop completes, the k-th applied flag's field holds segment currentIndex+k: absent flags take no segment |
| Tasks.EditTaskSetsFieldsInTextOrder | src/main/java/models/task/TaskList.java:76-117 | for any command text, only the task at position taskIndex-1 changes, absent flags leave their field unchanged, and on completion the k-th flag in text order holds split segment 2+k |
| Tasks.EditIsNotAtomic | src/main/java/models/task/TaskList.java:92-101 | with t before p and a non-numeric priority, the name is set and then NumberFormat is thrown: the edit is not atomic |
| Tasks.RemoveRequirement | src/main/java/models/task/TaskList.java:136 | removing requirement i succeeds exactly when 1 <= i <= number of requirements and removes that one only |
| Tasks.RemoveStep | src/main/java/models/task/TaskList.java:135-136 | one pass of the removal loop succeeds exactly when the index string parses, the task exists and the requirement exists, and then removes that requirement of that task only |
| Tasks.TaskList.EditTaskRequirements | src/main/java/models/task/TaskList.java:130-146 | the list and outcome are those of EditRequirementsResult: with haveRemove, remove the indices of entry 2 in the reverse of their string-sorted order, then append entries 3.. if any; without it, append entries 2.. if any |
| Tasks.RemoveEachReversed | src/main/java/models/task/TaskList.java:134-137 | walking any list of index strings from the last to the first performs the same removals, and stops at the same exception, as walking their reverse from the front |
| Tasks.TaskList.RemoveTaskRequirements | src/main/java/models/task/TaskList.java:134-137 | the loop from the last to the first sorted index string performs RemoveStep on each, stopping at the first exception |
| Tasks.TaskList.RemoveTaskRequirement | src/main/java/models/task/TaskList.java:135-136 | the list becomes RemoveStep's result, or is unchanged with the exception it throws |
| Tasks.TaskList.AddTaskRequirements | src/main/java/models/task/TaskList.java:156-160 | entries first.. are appended in order to the task's requirements; with no entries nothing happens, with a bad task index IndexOutOfBounds |
| Tasks.RemoveEachDescending | src/main/java/models/task/TaskList.java:134-137 | removing strictly decreasing positions one at a time removes exactly that set of positions from the requirements as they were |
| Tasks.UniformIndicesParse | src/main/java/models/task/TaskList.java:132-135 | index strings of equal width, digits only, in 1..n, each parse to their digit value |
| Tasks.RemovalOrderMembers | src/main/java/models/task/TaskList.java:132-133 | the sorted and reversed index strings are a permutation of the split ones, without repeats |
| Tasks.SortedIndicesDescend | src/main/java/models/task/TaskList.java:132-135 | for equal-width indices, the reversed string sort is strictly descending numerically and names the same positions |
| Tasks.RemovalOrderDescends | src/main/java/models/task/TaskList.java:132-136 | the removal order of an index text whose numbers all have the same number of digits is strictly numerically descending and parses to the listed indices |
| Tasks.RemovalRemovesListed | src/main/java/models/task/TaskList.java:132-137 | for equal-width distinct valid indices, the removal loop removes exactly the listed requirements and completes |
| Tasks.EditRequirementsRemovesListed | src/main/java/models/task/TaskList.java:130-140 | with haveRemove and equal-width indices, the new requirements are the old ones without the listed positions, followed by entries 3.. |
| Tasks.NineTenRemovesNinthAndEleventh | src/main/java/models/task/TaskList.java:132-137 | removing "9 10" sorts to "9","10" and removes 10 first and then 9: on at least 11 requirements the result is requirements 1-8, then the old 10th, then from the 12th on (the 9th and the 11th are gone) |
| Sorting.Sort | src/main/java/models/task/TaskList.java:133 | Arrays.sort: the result is sorted by the order given and is a permutation of the input |
| Sorting.Reverse | src/main/java/controllers/ProjectInputController.java:364 | Collections.reverse: element i of the result is element n-1-i of the input |
| Sorting.LexLeIsTotalOrder | src/main/java/models/task/TaskList.java:133 | String.compareTo's order is total and transitive, so Arrays.sort can sort by it |
| Sorting.LexLeAntisymmetric | src/main/java/models/task/TaskList.java:133 | strings ordered both ways by String.compareTo are equal |
| Sorting.LexLeIsNumericForEqualLength | src/main/java/models/task/TaskList.java:132-133 | for digit strings of the same length, string order is numeric order |
| Sorting.StringSortIsNotNumeric | src/main/java/models/task/TaskList.java:133 | "9" and "10" are sorted as "10","9" although 10 > 9: the string sort is not the numeric one |
| Sorting.SortedReversedDescending | src/main/java/controllers/ProjectInputController.java:363-364 | sorting distinct integers and reversing gives the same multiset in strictly descending order |
| JavaText.IndexOf | src/main/java/models/task/TaskList.java:80 | String.indexOf gives the first position where the text occurs, and -1 exactly when it never occurs |
| JavaText.FirstMatch | src/main/java/models/task/TaskList.java:77 | the first position at or after from where the delimiter matches, or -1 when none does |
| JavaText.FieldsJoin | src/main/java/controllers/ProjectInputController.java:144 | split on a literal separator keeps everything: joining the fields with the separator gives the string back |
| JavaText.FieldsHaveNoDelimiter | src/main/java/models/task/TaskList.java:77 | no field of a split contains the delimiter |
| JavaText.DropTrailingEmpty | src/main/java/models/task/TaskList.java:77 | split with limit 0 drops only trailing empty strings |
| JavaText.ParseInt | src/main/java/models/task/TaskList.java:78 | Integer.parseInt: a parsed value is a 32-bit int, and "", "-" and "+" do not parse |
| JavaText.ParseIntOfNatToString | src/main/java/controllers/ProjectInputController.java:61 | the decimal text of any n up to Integer.MAX_VALUE parses back to n |
| Positions.RemoveAt | src/main/java/models/task/TaskList.java:36 | ArrayList.remove(i-1): one shorter, the elements before position i unchanged, those after it shifted down by one |
| Positions.RemoveBelowRemoved | src/main/java/controllers/ProjectInputController.java:365-368 | once all higher positions are gone, removing position d removes the element that was originally at d |
| Positions.WithoutLength | src/main/java/controllers/ProjectInputController.java:365-368 | removing a set of valid positions shortens the list by the size of the set |
| Projects.Project.NumOfMembers | src/main/java/controllers/ProjectInputController.java:168 | getNumOfMembers is the number of members |
| Projects.Project.NumOfTasks | src/main/java/controllers/ProjectInputController.java:360 | getNumOfTasks is the number of tasks |
| Controller.Receive | src/main/java/controllers/ProjectInputController.java:56-69 | the project is managed exactly when the input parses as an int, with that number; otherwise the only line is the not-a-number message |
| Controller.ProjectInputController.OnCommandReceived | src/main/java/controllers/ProjectInputController.java:56-69 | the reply is Receive's, and isManagingAProject is set exactly when the input parses |
| Controller.ReceiveAcceptsPrintedNumber | src/main/java/controllers/ProjectInputController.java:60-67 | every printed project number up to Integer.MAX_VALUE is accepted as itself; "" and "-" are rejected |
| Controller.ProjectInputController.ProjectRoleMembers | src/main/java/controllers/ProjectInputController.java:140-153 | a command shorter than 5 characters lets StringIndexOutOfBounds escape; unless splitting on " -n " gives exactly 2 parts, the format message is returned; with 2 parts, an index that does not parse lets NumberFormat escape, one outside 1..size lets IndexOutOfBounds escape, and one inside sets exactly that member's role to the second part and replies with its name and the new role; nothing else changes in any case |
| Controller.ProjectInputController.ProjectAddMember | src/main/java/controllers/ProjectInputController.java:160-186 | a short command gives the usage lines; the factory's error is returned as is; a name that already exists gives the three "already exists" lines and leaves the members unchanged; otherwise the member is appended; distinct names stay distinct |
| Controller.ProjectInputController.ProjectAddTask | src/main/java/controllers/ProjectInputController.java:292-314 | a malformed task gives the format message, missing details the failure message, an existing name the three "already exists" lines with the tasks unchanged; otherwise the task is appended; distinct names stay distinct |
| Controller.ProjectEditTask | src/main/java/controllers/ProjectInputController.java:321-344 | an edit is made only with an index in 1..getNumOfTasks(), and exactly when the reply is "The task has been updated!"; a command of length at most 10 gives the two usage lines |
| Controller.EditTaskByIndex | src/main/java/controllers/ProjectInputController.java:330-337 | "edit task i -…" edits task i with the details from the '-' exactly when 1 <= i <= getNumOfTasks(); otherwise the invalid-index message and no edit |
| Controller.EditTaskByWord | src/main/java/controllers/ProjectInputController.java:330-337 | the same for any index word without spaces or dashes that parses, signs and leading zeros included |
| Controller.EditTaskBlankEscapes | src/main/java/controllers/ProjectInputController.java:330 | an argument of spaces only throws ArrayIndexOutOfBounds, which projectEditTask does not catch |
| Controller.EditWithoutDashEscapes | src/main/java/controllers/ProjectInputController.java:331 | without a '-' the substring throws StringIndexOutOfBounds, uncaught in projectEditTask and caught as the format message in projectEditMember |
| Controller.ProjectEditMember | src/main/java/controllers/ProjectInputController.java:193-210 | every exception is caught; an edit is made only with an index in 1..getNumOfMembers(), with the "Updated member details…" message; otherwise the format or the invalid-index message |
| Controller.EditMemberByIndex | src/main/java/controllers/ProjectInputController.java:197-204 | "edit member i -…" edits member i with the details from the '-' exactly when 1 <= i <= getNumOfMembers(); otherwise the invalid-index message and no edit |
| Controller.EditMemberByWord | src/main/java/controllers/ProjectInputController.java:197-204 | the same for any index word without spaces or dashes that parses, signs and leading zeros included |
| Controller.HighestFirst | src/main/java/controllers/ProjectInputController.java:363-364 | sort then reverse keeps the same indices, each as often |
| Controller.HighestFirstDescends | src/main/java/controllers/ProjectInputController.java:363-364 | for distinct valid indices, the removal order holds the same indices, strictly descending |
| Controller.TaskRemovalLinesAt | src/main/java/controllers/ProjectInputController.java:365-366 | there is one report line per index, and line k is "Removed task i: name" with the name of the task originally at i |
| Controller.ProjectInputController.ProjectDeleteTask | src/main/java/controllers/ProjectInputController.java:351-373 | a command of length at most 12 gives "No task number detected!" and removes nothing; otherwise exactly the valid positions are removed from the original list, and the output is the parser errors, one removal line per index in descending order, and the index note exactly when something was removed |
| Controller.ProjectInputController.RemoveTasks | src/main/java/controllers/ProjectInputController.java:365-368 | removing descending indices one at a time removes exactly those positions of the original list and reports each with its original name |
| Controller.DeleteTaskReportsHighestFirst | src/main/java/controllers/ProjectInputController.java:363-368 | earlier report lines name higher indices, each with the task originally there |
| Controller.ProjectInputController.ProjectDeleteMember | src/main/java/controllers/ProjectInputController.java:217-252 | a command of length at most 14 gives the two "no indexes" lines; no valid index gives the errors and "No valid member indexes…" and removes nothing; otherwise exactly the valid positions are removed, reported highest first, then the note |
| Controller.ProjectInputController.RemoveMembers | src/main/java/controllers/ProjectInputController.java:235-239 | removing descending indices one at a time removes exactly those members and reports each with its original details |
| Controller.DistinctCard | src/main/java/controllers/ProjectInputController.java:365-368 | distinct indices name as many positions as there are indices, so the list shrinks by their count |
| TableView.Repeat | src/main/java/views/CLIView.java:133-136 | n copies of a character: length n, every character that one |
| TableView.RemainingSpaces | src/main/java/views/CLIView.java:129-139 | getRemainingSpaces(n) returns exactly n spaces ("" for 0) |
| TableView.Border | src/main/java/views/CLIView.java:146-153 | a border is n+2 characters: '+', n '-', '+' |
| TableView.HoriBorder | src/main/java/views/CLIView.java:146-153 | consolePrintTableHoriBorder(n) returns that border |
| TableView.LastSpaceCut | src/main/java/views/CLIView.java:92-94 | walking back from a window holding a space stops just after its last space, inside the window |
| TableView.WordEnd | src/main/java/views/CLIView.java:101-106 | walking forward stops just after the next space or at the end of the string |
| TableView.Round | src/main/java/views/CLIView.java:91-115 | every round of the loop moves the start of the next piece strictly forward and not past the end, so the loop terminates |
| TableView.SplitLongString | src/main/java/views/CLIView.java:85-122 | getArrayOfSplitStrings returns the shown pieces of the wrap specification, round by round, then the rest as the last piece |
| TableView.WalkBack | src/main/java/views/CLIView.java:92-94 | the inner loop stops where LastSpaceCut says |
| TableView.WalkForward | src/main/java/views/CLIView.java:101-106 | the inner loop, with its break at the end of the string, stops where WordEnd says |
| TableView.AddSegments | src/main/java/views/CLIView.java:107-113 | the for loop adds numOfLines pieces of 59 characters each followed by '-', moving the start by 59 each time |
| TableView.WrapFromFits | src/main/java/views/CLIView.java:78-119 | every piece returned is at most 60 characters, so every wrapped line fits the table |
| TableView.RoundFits | src/main/java/views/CLIView.java:91-113 | the pieces of each round are at most 60 characters |
| TableView.WrapFromWordCuts | src/main/java/views/CLIView.java:107-113 | every hyphenated piece is 59 characters of one word (no space but perhaps its last character) followed by '-' |
| TableView.WrapFromSpells | src/main/java/views/CLIView.java:91-118 | nothing is lost or repeated: the pieces without the '-' of hyphenated ones spell the input from the start |
| TableView.UnhyphenatedSplitRejoins | src/main/java/views/CLIView.java:91-97 | when no word is hyphenated, the pieces joined give back the original string |
| TableView.ConsolePrintTable | src/main/java/views/CLIView.java:47-76 | the lines are the table layout: per table a border, the rows' lines with a border after the first row only, and a closing border |
| TableView.PrintTableBody | src/main/java/views/CLIView.java:51-71 | the inner loop with its header flag yields the first row, a border, then the other rows |
| TableView.PrintRow | src/main/java/views/CLIView.java:53-66 | a row of at most 60 characters becomes one framed line; a longer one becomes its split pieces, each framed |
| TableView.FrameLine | src/main/java/views/CLIView.java:54-56 | "|" + row + getRemainingSpaces(60 - length) + "|" |
| TableView.FramedShape | src/main/java/views/CLIView.java:53-57 | a framed row is exactly 62 characters: '|', the row, spaces, '|' |
| TableView.TableWide | src/main/java/views/CLIView.java:47-76 | every line of the table, border or row, is 62 characters |
| TableView.ShortBlockLength | src/main/java/views/CLIView.java:49-73 | a table whose k >= 1 rows all fit has k+3 lines; an empty table has 2 |
| TableView.BlockLayout | src/main/java/views/CLIView.java:50-72 | a table is a top border, the first row's lines, a border, the other rows' lines and a bottom border |
| TableView.TableAppend | src/main/java/views/CLIView.java:49-73 | the lines for tables a + b are those for a followed by those for b: tables appear in input order |
| TableView.TableOfOne | src/main/java/views/CLIView.java:49-73 | a single table is laid out as one block |
| NullProjects.NullProject.GetDescription | src/main/java/models/data/NullProject.java:12-15 | there is no description (null) |
| NullProjects.NullProject.GetMembers | src/main/java/models/data/NullProject.java:17-20 | there is no member list (null) |
| NullProjects.NullProject.GetTasks | src/main/java/models/data/NullProject.java:22-25 | there is no task list (null) |
| NullProjects.NullProject.GetNumOfMembers | src/main/java/models/data/NullProject.java:27-30 | the member count is 0 |
| NullProjects.NullProject.GetNumOfTasks | src/main/java/models/data/NullProject.java:32-35 | the task count is 0 |
| NullProjects.NullProject.MemberIndexExists | src/main/java/models/data/NullProject.java:72-75 | no index names a member |
| NullProjects.NullProject.GetTask | src/main/java/models/data/NullProject.java:77-80 | no index names a task (null) |
| NullProjects.NullProject.GetAssignedTaskList | src/main/java/models/data/NullProject.java:96-99 | there is no assignment list (null) |
| NullProjects.NullProject.AddMember | src/main/java/models/data/NullProject.java:37-42 | changes nothing (no modifies clause); the project still has no members or tasks |
| NullProjects.NullProject.EditMember | src/main/java/models/data/NullProject.java:44-49 | changes nothing; still empty |
| NullProjects.NullProject.RemoveMember | src/main/java/models/data/NullProject.java:51-56 | changes nothing; still empty |
| NullProjects.NullProject.AddTask | src/main/java/models/data/NullProject.java:58-63 | changes nothing; still empty |
| NullProjects.NullProject.RemoveTask | src/main/java/models/data/NullProject.java:65-70 | changes nothing; still empty |
| NullProjects.NullProject.EditTask | src/main/java/models/data/NullProject.java:82-87 | changes nothing; still empty |
| NullProjects.NullProject.EditTaskRequirements | src/main/java/models/data/NullProject.java:89-94 | changes nothing; still empty |
| NullProjects.NullProject.AssignTaskToMembers | src/main/java/models/data/NullProject.java:101-106 | changes nothing; still empty |
| NullProjects.NullProject.AssignMemberToTasks | src/main/java/models/data/NullProject.java:108-113 | changes nothing; still empty |
| NullProjects.NullProjectRejectsEdits | src/main/java/models/data/NullProject.java:27-35 | with the null project's counts, no edit-task or edit-member command reaches an edit |
| NullProjects.NullProjectHasNothingToDelete | src/main/java/models/data/NullProject.java:27-35 | with the null project's counts, the only valid index list for a delete is empty |

## Left out

- Console and standard input: `manageProject`'s Scanner loop and command dispatch, `CLIView.consolePrint`, `start`, `end` and the view methods that only print. `onCommandReceived` is modelled up to the number check; the project repository lookup and `manageProject` are not part of this model.
- Logging (`ArchDukeLogger`, `DukeLogger`) and saving to JSON after each command: these are I/O.
- Classes not shown: `Project`, `MemberList`, `Task`, `ParserHelper`, `MemberFactory`, `TaskFactory`.
  - A project is its name plus a member sequence and a task sequence.
  - `getMember(i)` is taken as 1-based and throwing out of range.
  - `memberExists` and `taskExists` compare names.
  - `removeMember(member)` removes the member at the position it was fetched from.
  - `Task.removeTaskRequirement(i)` is taken as `ArrayList.remove(i-1)`.
  - The factories and the index parsers are function parameters.
- Controller.ProjectInputController.ProjectDeleteTask: the index parser's result is required to be indices in 1..N without repeats. The deduplicating parser is not part of this model, so this is an assumption on it, not a check the handler makes.
- Controller.ProjectEditTask: the call `Project.editTask(int, String)` is returned as the edit it would make (index and details), not carried out, because `Project` is not part of this model. The same holds for Controller.ProjectEditMember and `Project.editMember`.
- `projectEditTaskRequirements`, `projectViewTasks`, `projectViewAssignments*`, `projectViewMembers`, `projectViewCredits`, `projectAssignTask`, `projectAddReminder`, `projectHelp` and `projectExit`: they only glue classes that are not part of this model or print.
- `getAllTaskDetails`, `getAllSortedTaskDetails` and `getTaskList` of `TaskList`: they hand the list to `ParserHelper` or return it by reference.
- JavaText.ParseInt: only ASCII digits are read; Java also accepts other Unicode decimal digits.
- JavaText and TableView: a string is a sequence of Unicode code points, while Java's `length`, `substring`, `charAt`, `indexOf` and `compareTo` count UTF-16 code units. For text outside the Basic Multilingual Plane, the model pads, cuts, searches and sorts at different positions than Java does; `FramedShape` and `TableWide` count 62 code points, not 62 UTF-16 units.
- Task setters (`setTaskName`, `setTaskPriority`, `setDueDate`, `setTaskCredit`, `setTaskState`): `Task` is not part of this model. Each setter is taken to store its argument unchanged and never to throw, so no check on credit, state or due date is modelled.
- Tasks.TaskList.EditTask: tasks are values in a sequence, so `taskList.get(i)` handing out a shared `Task` object (aliasing) is not modelled. An update replaces the task in the list.
- NullProjects.NullProject: Java's `IProject` interface is not modelled as a separate type. Its one implementation here carries the operations directly, and `null` is `None`.
- NullProjects.NullProject.AddMember and the other mutators: "changes nothing" is carried by the absence of a modifies clause. Their ensures only restate that the project still reports no members and no tasks.
- TableView.SplitLongString: requires a string longer than 60 characters. It is only called for those; on a shorter string the first substring would throw.
