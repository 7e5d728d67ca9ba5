/** controllers/ProjectInputController.java: the handlers behind the commands
    a user types while managing one project. Each handler reads the command
    text, checks it, changes the project at most through the one mutation it
    names, and answers with the lines the view shows. */
module Controller {
  import opened Wrappers
  import opened JavaText
  import opened Sorting
  import opened Positions
  import opened Tasks
  import opened Projects

  /** A handler's answer: the lines to show, or an exception it does not catch. */
  datatype Response = Reply(lines: seq<string>) | Uncaught(e: JavaException)

  /** The answer of an edit handler, with the call it makes on the project
      (Project.editTask or Project.editMember, which are not part of this
      model): the 1-based index and the details text, or no call at all. */
  datatype EditReply = EditReply(response: Response, edit: Option<(int, string)>)

  /** What onCommandReceived does with the project number it is given. */
  datatype Reception = Rejected(lines: seq<string>) | Manage(projectNumber: int)

  const NotANumber := "Input is not a number! Please input a proper project index!"
  const RoleFormat := "Wrong command format! Please enter role INDEX -n ROLE_NAME"
  const AddMemberUsage := "Add member command minimum usage must be \"add member -n NAME\"!"
  const SeeUserGuide := "Please refer to user guide for additional details."
  const MemberExists := "The member you have tried to add already exists!"
  const DistinctMemberNames := "Please ensure that each member has a different name."
  const MemberUpdatedPrefix := "Updated member details with the index number "
  const MemberIndexInvalid := "The member index entered is invalid."
  const MemberFormat := "Please enter the updated member details format correctly."
  const NoMemberIndexes := "Can't delete members: No member index numbers detected!"
  const SpaceSeparated := "Please enter them as space-separated integers."
  const NoValidMembers := "No valid member indexes. Cannot delete members."
  const MemberIndexNote := "Take note that the member indexes might have changed after deleting!"
  const TaskExists := "The task you are trying to add already exists!"
  const DistinctTaskNames := "Please ensure that each task has a different task name."
  const TaskAdded := "Added new task to the list."
  const TaskIncomplete := "Failed to create new task. Please ensure all necessary parameters are given"
  const TaskFormat := "Please enter your task format correctly."
  const NoEditParameters := "No parameters detected. Please enter details in the following format:"
  const EditTaskUsage := "TASK_INDEX [-t TASK_NAME] [-p TASK_PRIORITY] [-d TASK_DUEDATE] [-c TASK_CREDIT] [-s STATE]"
  const TaskUpdated := "The task has been updated!"
  const TaskIndexInvalid := "The task index entered is invalid."
  const NoTaskNumber := "No task number detected! Please enter the task index number."
  const TaskIndexNote := "\t * Take note that index numbers of other tasks may have changed after deleting!"

  // ---------------------------------------------------------------------------
  // onCommandReceived

  /** The project number must parse as an int; what happens with it next
      (the Scanner loop of manageProject) is not part of this model. */
  function Receive(input: string): (r: Reception)
    ensures r.Manage? <==> ParseInt(input).Some?
    ensures r.Manage? ==> ParseInt(input) == Some(r.projectNumber)
    ensures r.Rejected? ==> r.lines == [NotANumber]
  {
    match ParseInt(input)
    case None => Rejected([NotANumber])
    case Some(n) => Manage(n)
  }

  /** A number printed in decimal is accepted as that project number; an
      empty or sign-only input is rejected. */
  lemma {:induction false} ReceiveAcceptsPrintedNumber(n: nat)
    requires n <= MaxInt
    ensures Receive(NatToString(n)) == Manage(n)
    ensures Receive("") == Rejected([NotANumber]) && Receive("-") == Rejected([NotANumber])
  {
    ParseIntOfNatToString(n);
  }

  // ---------------------------------------------------------------------------
  // Index parsing: ParserHelper is not part of this model

  /** Indexes that name distinct positions 1..n: what parseTasksIndexes and
      parseMembersIndexes are taken to return. */
  ghost predicate ValidIndexes(idx: seq<int>, n: nat) {
    && (forall x :: x in idx ==> 1 <= x <= n)
    && (forall i, j :: 0 <= i < j < |idx| ==> idx[i] != idx[j])
  }

  function Elems(s: seq<int>): set<int> {
    set x | x in s
  }

  /** The order the batch deletes walk: Collections.sort, then Collections.reverse. */
  function HighestFirst(idx: seq<int>): (r: seq<int>)
    ensures multiset(r) == multiset(idx)
    ensures forall x :: x in r <==> x in idx
    ensures forall k :: 0 <= k < |r| ==> r[k] in idx
    ensures |r| == |idx|
  {
    IntLeIsTotalOrder();
    var q := Sort(IntLe, idx);
    ReverseSameMultiset(q);
    var r := Reverse(q);
    assert |r| == |multiset(r)| == |multiset(idx)| == |idx|;
    assert forall x :: x in r <==> x in idx by {
      forall x ensures x in r <==> x in idx {
        assert x in r <==> x in multiset(r);
        assert x in idx <==> x in multiset(idx);
      }
    }
    r
  }

  /** The batch deletes remove every valid index once, highest first: so each
      removal leaves the positions still to be removed where they were. */
  lemma {:induction false} HighestFirstDescends(idx: seq<int>, n: nat)
    requires ValidIndexes(idx, n)
    ensures var order := HighestFirst(idx);
      && Elems(order) == Elems(idx)
      && |order| == |idx|
      && (forall i, j :: 0 <= i < j < |order| ==> order[i] > order[j])
  {
    var order := HighestFirst(idx);
    SortedReversedDescending(idx);
    assert |order| == |multiset(order)| == |multiset(idx)| == |idx|;
  }

  /** The report of one removed task. */
  function TaskRemovedLine(i: nat, name: string): string {
    "Removed task " + NatToString(i) + ": " + name
  }

  /** The report of one removed member. */
  function MemberRemovedLine(i: nat, details: string): string {
    "Removed member " + NatToString(i) + ": " + details
  }

  /** "Removed task i: name" for each index of order, the name read from tasks. */
  function TaskRemovalLines(tasks: seq<Task>, order: seq<int>): seq<string>
    requires forall k :: 0 <= k < |order| ==> 1 <= order[k] <= |tasks|
  {
    if |order| == 0 then []
    else
      var i := order[|order| - 1];
      TaskRemovalLines(tasks, order[..|order| - 1])
        + [TaskRemovedLine(i, tasks[i - 1].name)]
  }

  /** "Removed member i: details" for each index of order. */
  function MemberRemovalLines(members: seq<Member>, order: seq<int>): seq<string>
    requires forall k :: 0 <= k < |order| ==> 1 <= order[k] <= |members|
  {
    if |order| == 0 then []
    else
      var i := order[|order| - 1];
      MemberRemovalLines(members, order[..|order| - 1])
        + [MemberRemovedLine(i, members[i - 1].details)]
  }

  /** The k-th removal line names the k-th index of the order and the item that
      was originally at it. */
  lemma {:induction false} TaskRemovalLinesAt(tasks: seq<Task>, order: seq<int>, k: nat)
    requires forall k :: 0 <= k < |order| ==> 1 <= order[k] <= |tasks|
    requires k < |order|
    ensures |TaskRemovalLines(tasks, order)| == |order|
    ensures TaskRemovalLines(tasks, order)[k]
      == TaskRemovedLine(order[k], tasks[order[k] - 1].name)
  {
    var n := |order|;
    var init := order[..n - 1];
    if k < n - 1 {
      TaskRemovalLinesAt(tasks, init, k);
    } else if n > 1 {
      TaskRemovalLinesAt(tasks, init, 0);
    }
  }

  // ---------------------------------------------------------------------------
  // Edit handlers

  /** The first space-separated word of the text after the command words; the
      array access throws when the split is empty (the text is all spaces). */
  function FirstWord(text: string): Result<string> {
    var words := Split(text, Literal(" "));
    if |words| == 0 then Err(ArrayIndexOutOfBounds) else Ok(words[0])
  }

  /** projectEditTask: the index is the first word after "edit task ", the
      details run from the first '-'. Only NumberFormatException is caught:
      an all-space argument and a command without '-' escape. The project is
      edited only when the index is in 1..getNumOfTasks(). */
  function ProjectEditTask(numOfTasks: nat, command: string): (r: EditReply)
    ensures r.edit.Some? ==> 1 <= r.edit.value.0 <= numOfTasks
    ensures r.edit.Some? <==> r.response == Reply([TaskUpdated])
    ensures |command| <= 10 ==> r == EditReply(Reply([NoEditParameters, EditTaskUsage]), None)
  {
    if |command| <= 10 then EditReply(Reply([NoEditParameters, EditTaskUsage]), None)
    else match FirstWord(command[10..])
      case Err(e) => EditReply(Uncaught(e), None)
      case Ok(word) =>
        match ParseInt(word)
        case None => EditReply(Reply([TaskFormat]), None)
        case Some(taskIndexNumber) =>
          var dash := IndexOf(command, "-");
          if dash < 0 then EditReply(Uncaught(StringIndexOutOfBounds), None)
          else if numOfTasks >= taskIndexNumber && taskIndexNumber > 0 then
            EditReply(Reply([TaskUpdated]), Some((taskIndexNumber, command[dash..])))
          else EditReply(Reply([TaskIndexInvalid]), None)
  }

  /** projectEditMember: the index is the first word after "edit member ", the
      details run from the first '-'. Every IndexOutOfBoundsException (a short
      command, an empty split, a missing '-') and NumberFormatException is
      caught. The project is edited only when the index is in
      1..getNumOfMembers(). */
  function ProjectEditMember(numOfMembers: nat, command: string): (r: EditReply)
    ensures r.response.Reply?
    ensures r.edit.Some? ==> 1 <= r.edit.value.0 <= numOfMembers
    ensures r.edit.Some? ==> r.response == Reply([MemberUpdatedPrefix + NatToString(r.edit.value.0)])
    ensures r.edit.None? ==> r.response == Reply([MemberFormat]) || r.response == Reply([MemberIndexInvalid])
  {
    if |command| < 12 then EditReply(Reply([MemberFormat]), None)
    else match FirstWord(command[12..])
      case Err(_) => EditReply(Reply([MemberFormat]), None)
      case Ok(word) =>
        match ParseInt(word)
        case None => EditReply(Reply([MemberFormat]), None)
        case Some(memberIndexNumber) =>
          if numOfMembers >= memberIndexNumber && memberIndexNumber > 0 then
            var dash := IndexOf(command, "-");
            if dash < 0 then EditReply(Reply([MemberFormat]), None)
            else EditReply(Reply([MemberUpdatedPrefix + NatToString(memberIndexNumber)]),
                           Some((memberIndexNumber, command[dash..])))
          else EditReply(Reply([MemberIndexInvalid]), None)
  }

  /** A word with no space in it is the first word of word + " " + rest. */
  lemma {:induction false} SplitFirstWord(word: string, rest: string)
    requires |word| > 0 && forall i :: 0 <= i < |word| ==> word[i] != ' '
    ensures FirstWord(word + " " + rest) == Ok(word)
  {
    var s := word + " " + rest;
    var d := Literal(" ");
    assert MatchesAt(s, d, |word|) by {
      assert s[|word|..|word| + 1] == " ";
    }
    forall i | 0 <= i < |word| ensures !MatchesAt(s, d, i) {
      assert s[i..i + 1] == [word[i]];
    }
    assert FirstMatch(s, d, 0) == |word|;
    assert s[..|word|] == word;
    var fs := Fields(s, d);
    assert fs[0] == word;
    var ws := DropTrailingEmpty(fs);
    assert |ws| > 0 && ws[0] == word;
  }

  /** In prefix + details, with no '-' in the prefix and details starting with
      one, the details start at the first '-'. */
  lemma {:induction false} DashAfterPrefix(prefix: string, details: string)
    requires forall i :: 0 <= i < |prefix| ==> prefix[i] != '-'
    requires |details| > 0 && details[0] == '-'
    ensures IndexOf(prefix + details, "-") == |prefix|
    ensures (prefix + details)[|prefix|..] == details
  {
    var s := prefix + details;
    assert OccursAt(s, "-", |prefix|);
    forall i | 0 <= i < |prefix| ensures !OccursAt(s, "-", i) {
      assert s[i..i + 1] == [prefix[i]];
    }
  }

  /** Decimal digits contain neither a space nor a '-'. */
  lemma {:induction false} DigitsAreNotSeparators(n: nat)
    ensures forall i :: 0 <= i < |NatToString(n)| ==> NatToString(n)[i] != ' ' && NatToString(n)[i] != '-'
  {
  }

  /** "edit task i -..." edits task i with the details from the '-' exactly
      when i is in 1..getNumOfTasks(), and otherwise changes nothing and says
      the index is invalid. */
  lemma {:induction false} EditTaskByIndex(numOfTasks: nat, i: nat, details: string)
    requires i <= MaxInt
    requires |details| > 0 && details[0] == '-'
    ensures ProjectEditTask(numOfTasks, "edit task " + NatToString(i) + " " + details)
      == if 1 <= i <= numOfTasks then EditReply(Reply([TaskUpdated]), Some((i, details)))
         else EditReply(Reply([TaskIndexInvalid]), None)
  {
    DigitsAreNotSeparators(i);
    ParseIntOfNatToString(i);
    EditTaskByWord(numOfTasks, NatToString(i), i, details);
  }

  /** The same for any index word without spaces or dashes that parses. */
  lemma {:induction false} EditTaskByWord(numOfTasks: nat, word: string, i: int, details: string)
    requires |word| > 0 && forall k :: 0 <= k < |word| ==> word[k] != ' ' && word[k] != '-'
    requires ParseInt(word) == Some(i)
    requires |details| > 0 && details[0] == '-'
    ensures ProjectEditTask(numOfTasks, "edit task " + word + " " + details)
      == if 1 <= i <= numOfTasks then EditReply(Reply([TaskUpdated]), Some((i, details)))
         else EditReply(Reply([TaskIndexInvalid]), None)
  {
    var prefix := "edit task " + word + " ";
    CommandWords("edit task ", word, details);
    ProjectEditTaskOf(numOfTasks, prefix + details, word, i, |prefix|);
  }

  /** The command "head word -details", read as the edit handlers read it:
      its first word after head is word, and its details start at the first
      '-', which is just after word. */
  lemma {:induction false} CommandWords(head: string, word: string, details: string)
    requires forall k :: 0 <= k < |head| ==> head[k] != '-'
    requires |word| > 0 && forall k :: 0 <= k < |word| ==> word[k] != ' ' && word[k] != '-'
    requires |details| > 0 && details[0] == '-'
    ensures FirstWord((head + word + " " + details)[|head|..]) == Ok(word)
    ensures IndexOf(head + word + " " + details, "-") == |head + word + " "|
    ensures (head + word + " " + details)[|head + word + " "|..] == details
  {
    var prefix := head + word + " ";
    assert (prefix + details)[|head|..] == word + " " + details;
    SplitFirstWord(word, details);
    forall k | 0 <= k < |prefix| ensures prefix[k] != '-' {
      if k < |head| {
        assert prefix[k] == head[k];
      } else if k < |head| + |word| {
        assert prefix[k] == word[k - |head|];
      }
    }
    DashAfterPrefix(prefix, details);
  }

  /** projectEditTask on a command whose first word and first '-' are known. */
  lemma {:induction false} ProjectEditTaskOf(numOfTasks: nat, command: string, word: string, i: int, dash: nat)
    requires |command| > 10 && FirstWord(command[10..]) == Ok(word)
    requires ParseInt(word) == Some(i)
    requires IndexOf(command, "-") == dash
    ensures ProjectEditTask(numOfTasks, command)
      == if 1 <= i <= numOfTasks then EditReply(Reply([TaskUpdated]), Some((i, command[dash..])))
         else EditReply(Reply([TaskIndexInvalid]), None)
  {
  }

  /** "edit member i -..." edits member i exactly when i is in
      1..getNumOfMembers(), and otherwise changes nothing and says the index
      is invalid. */
  lemma {:induction false} EditMemberByIndex(numOfMembers: nat, i: nat, details: string)
    requires i <= MaxInt
    requires |details| > 0 && details[0] == '-'
    ensures ProjectEditMember(numOfMembers, "edit member " + NatToString(i) + " " + details)
      == if 1 <= i <= numOfMembers
         then EditReply(Reply([MemberUpdatedPrefix + NatToString(i)]), Some((i, details)))
         else EditReply(Reply([MemberIndexInvalid]), None)
  {
    DigitsAreNotSeparators(i);
    ParseIntOfNatToString(i);
    EditMemberByWord(numOfMembers, NatToString(i), i, details);
  }

  /** The same for any index word without spaces or dashes that parses. */
  lemma {:induction false} EditMemberByWord(numOfMembers: nat, word: string, i: int, details: string)
    requires |word| > 0 && forall k :: 0 <= k < |word| ==> word[k] != ' ' && word[k] != '-'
    requires ParseInt(word) == Some(i)
    requires |details| > 0 && details[0] == '-'
    ensures ProjectEditMember(numOfMembers, "edit member " + word + " " + details)
      == if 1 <= i <= numOfMembers
         then EditReply(Reply([MemberUpdatedPrefix + NatToString(i)]), Some((i, details)))
         else EditReply(Reply([MemberIndexInvalid]), None)
  {
    var prefix := "edit member " + word + " ";
    CommandWords("edit member ", word, details);
    ProjectEditMemberOf(numOfMembers, prefix + details, word, i, |prefix|);
  }

  /** projectEditMember on a command whose first word and first '-' are known. */
  lemma {:induction false} ProjectEditMemberOf(numOfMembers: nat, command: string, word: string, i: int, dash: nat)
    requires |command| >= 12 && FirstWord(command[12..]) == Ok(word)
    requires ParseInt(word) == Some(i)
    requires IndexOf(command, "-") == dash
    ensures ProjectEditMember(numOfMembers, command)
      == if 1 <= i <= numOfMembers
         then EditReply(Reply([MemberUpdatedPrefix + NatToString(i)]), Some((i, command[dash..])))
         else EditReply(Reply([MemberIndexInvalid]), None)
  {
  }

  /** An argument of spaces only leaves nothing to read the index from: the
      array access throws and projectEditTask does not catch it. */
  lemma {:induction false} EditTaskBlankEscapes(n: nat)
    ensures ProjectEditTask(n, "edit task  ") == EditReply(Uncaught(ArrayIndexOutOfBounds), None)
  {
    var d := Literal(" ");
    var blank := "edit task  "[10..];
    assert blank == " ";
    assert MatchesAt(blank, d, 0) by {
      assert blank[0..1] == " ";
    }
    assert FirstMatch(blank, d, 0) == 0;
    assert Fields(blank, d) == [""] + Fields("", d);
  }

  /** A number with nothing after it has no '-' to start the details from:
      substring(-1) throws, and projectEditTask does not catch it, while
      projectEditMember, which checks the index first, answers with its
      format message when the index is in range. */
  lemma {:induction false} EditWithoutDashEscapes(n: nat, i: nat)
    requires i <= MaxInt
    ensures ProjectEditTask(n, "edit task " + NatToString(i))
      == EditReply(Uncaught(StringIndexOutOfBounds), None)
    ensures 1 <= i <= n ==>
      ProjectEditMember(n, "edit member " + NatToString(i)) == EditReply(Reply([MemberFormat]), None)
  {
    DigitsAreNotSeparators(i);
    ParseIntOfNatToString(i);
    EditWithoutDashByWord(n, NatToString(i), i);
  }

  /** The same for any index word without spaces or dashes that parses. */
  lemma {:induction false} EditWithoutDashByWord(n: nat, word: string, i: int)
    requires |word| > 0 && forall k :: 0 <= k < |word| ==> word[k] != ' ' && word[k] != '-'
    requires ParseInt(word) == Some(i)
    ensures ProjectEditTask(n, "edit task " + word)
      == EditReply(Uncaught(StringIndexOutOfBounds), None)
    ensures 1 <= i <= n ==>
      ProjectEditMember(n, "edit member " + word) == EditReply(Reply([MemberFormat]), None)
  {
    LoneWord(word);
    BareCommand("edit task ", word);
    EditTaskNoDash(n, "edit task " + word, word, i);
    if 1 <= i <= n {
      BareCommand("edit member ", word);
      EditMemberNoDash(n, "edit member " + word, word, i);
    }
  }

  /** A command word followed by an argument, neither holding a '-'. */
  lemma {:induction false} BareCommand(head: string, word: string)
    requires forall k :: 0 <= k < |head| ==> head[k] != '-'
    requires forall k :: 0 <= k < |word| ==> word[k] != '-'
    ensures (head + word)[|head|..] == word
    ensures IndexOf(head + word, "-") == -1
  {
    assert (head + word)[|head|..] == word;
    NoDash(head, word);
  }

  /** projectEditTask on a command with a readable index and no '-'. */
  lemma {:induction false} EditTaskNoDash(n: nat, command: string, word: string, i: int)
    requires |command| > 10 && FirstWord(command[10..]) == Ok(word)
    requires ParseInt(word) == Some(i) && IndexOf(command, "-") == -1
    ensures ProjectEditTask(n, command) == EditReply(Uncaught(StringIndexOutOfBounds), None)
  {
  }

  /** projectEditMember on a command with an index in range and no '-'. */
  lemma {:induction false} EditMemberNoDash(n: nat, command: string, word: string, i: int)
    requires |command| >= 12 && FirstWord(command[12..]) == Ok(word)
    requires ParseInt(word) == Some(i) && 1 <= i <= n && IndexOf(command, "-") == -1
    ensures ProjectEditMember(n, command) == EditReply(Reply([MemberFormat]), None)
  {
  }

  /** A word without spaces is its own first word. */
  lemma {:induction false} LoneWord(word: string)
    requires |word| > 0 && forall k :: 0 <= k < |word| ==> word[k] != ' '
    ensures FirstWord(word) == Ok(word)
  {
    var d := Literal(" ");
    forall j | 0 <= j < |word| ensures !MatchesAt(word, d, j) {
      assert word[j..j + 1] == [word[j]];
    }
    assert FirstMatch(word, d, 0) == -1;
  }

  /** With no '-' in prefix + digits, indexOf("-") is -1. */
  lemma {:induction false} NoDash(prefix: string, word: string)
    requires forall i :: 0 <= i < |prefix| ==> prefix[i] != '-'
    requires forall i :: 0 <= i < |word| ==> word[i] != '-'
    ensures IndexOf(prefix + word, "-") == -1
  {
    var s := prefix + word;
    forall j | 0 <= j < |s| ensures !OccursAt(s, "-", j) {
      assert s[j..j + 1] == [s[j]];
    }
  }

  // ---------------------------------------------------------------------------
  // The handlers that change the project

  class ProjectInputController {
    var isManagingAProject: bool

    constructor ()
      ensures isManagingAProject
    {
      isManagingAProject := true;
    }

    /** onCommandReceived: a project number that does not parse stops the
        managing of a project and says so; one that parses starts it. */
    method OnCommandReceived(input: string) returns (r: Reception)
      modifies this
      ensures r == Receive(input)
      ensures isManagingAProject <==> ParseInt(input).Some?
    {
      var projectNumber := ParseInt(input);
      if projectNumber.None? {
        isManagingAProject := false;
        return Rejected([NotANumber]);
      }
      isManagingAProject := true;
      return Manage(projectNumber.value);
    }

    /** projectRoleMembers: "role INDEX -n ROLE" sets the role of member INDEX.
        Unless the text after "role " splits on " -n " into exactly two parts,
        it answers with the format message and changes nothing. The index is
        not range-checked: MemberList.getMember is taken to throw outside
        1..size, and neither that nor parseInt's exception is caught. */
    method ProjectRoleMembers(p: Project, command: string) returns (r: Response)
      modifies p
      ensures p.name == old(p.name) && p.tasks == old(p.tasks)
      ensures |command| < 5 ==> r == Uncaught(StringIndexOutOfBounds) && p.members == old(p.members)
      ensures |command| >= 5 && |Split(command[5..], Literal(" -n "))| != 2 ==>
        r == Reply([RoleFormat]) && p.members == old(p.members)
      ensures |command| >= 5 && |Split(command[5..], Literal(" -n "))| == 2 ==>
        var parts := Split(command[5..], Literal(" -n "));
        var index := ParseInt(parts[0]);
        && (index.None? ==> r == Uncaught(NumberFormat) && p.members == old(p.members))
        && (index.Some? && !(1 <= index.value <= |old(p.members)|) ==>
              r == Uncaught(IndexOutOfBounds) && p.members == old(p.members))
        && (index.Some? && 1 <= index.value <= |old(p.members)| ==>
              var i := index.value;
              && p.members == old(p.members)[i - 1 := old(p.members)[i - 1].(role := parts[1])]
              && r == Reply(["Successfully changed the role of " + old(p.members)[i - 1].name
                             + " to " + parts[1] + "."]))
    {
      if |command| < 5 {
        return Uncaught(StringIndexOutOfBounds);
      }
      var commandOptions := Split(command[5..], Literal(" -n "));
      if |commandOptions| != 2 {
        return Reply([RoleFormat]);
      }
      var memberIndex := ParseInt(commandOptions[0]);
      if memberIndex.None? {
        return Uncaught(NumberFormat);
      }
      var i := memberIndex.value;
      if !(1 <= i <= |p.members|) {
        return Uncaught(IndexOutOfBounds);
      }
      var selectedMember := p.members[i - 1].(role := commandOptions[1]);
      p.members := p.members[i - 1 := selectedMember];
      return Reply(["Successfully changed the role of " + selectedMember.name + " to "
                    + selectedMember.role + "."]);
    }

    /** projectAddMember: the details after "add member " get " -x " and the
        current member count appended and go to the factory. A member without
        a name is refused with the factory's message; one whose name is taken
        is refused with the "already exists" lines; otherwise it is appended.
        So the member names stay distinct. */
    method ProjectAddMember(p: Project, command: string, create: string -> MemberCreation)
      returns (r: Response)
      modifies p
      ensures p.name == old(p.name) && p.tasks == old(p.tasks)
      ensures |command| < 11 ==> r == Reply([AddMemberUsage, SeeUserGuide]) && p.members == old(p.members)
      ensures |command| >= 11 ==>
        match create(command[11..] + " -x " + NatToString(|old(p.members)|))
        case NoName(message) => r == Reply([message]) && p.members == old(p.members)
        case NewMember(m) =>
          if MemberNamed(old(p.members), m.name) then
            r == Reply([MemberExists, "Member name: " + m.name, DistinctMemberNames])
            && p.members == old(p.members)
          else
            r == Reply(["Added new member to: " + p.name, "Member details " + m.details])
            && p.members == old(p.members) + [m]
      ensures MemberNamesDistinct(old(p.members)) ==> MemberNamesDistinct(p.members)
    {
      if |command| < 11 {
        return Reply([AddMemberUsage, SeeUserGuide]);
      }
      var memberDetails := command[11..];
      var numberOfCurrentMembers := |p.members|;
      memberDetails := memberDetails + " -x " + NatToString(numberOfCurrentMembers);
      var newMember := create(memberDetails);
      match newMember
      case NoName(message) =>
        return Reply([message]);
      case NewMember(m) =>
        if MemberNamed(p.members, m.name) {
          return Reply([MemberExists, "Member name: " + m.name, DistinctMemberNames]);
        }
        p.members := p.members + [m];
        return Reply(["Added new member to: " + p.name, "Member details " + m.details]);
    }

    /** projectAddTask: the text after "add task " goes to the factory. A
        malformed task is refused with the format message, an incomplete one
        with the failure message, a task whose name is taken with the
        "already exists" lines; otherwise it is appended. A command shorter
        than "add task " makes substring throw, uncaught. */
    method ProjectAddTask(p: Project, command: string, create: string -> TaskCreation)
      returns (r: Response)
      modifies p
      ensures p.name == old(p.name) && p.members == old(p.members)
      ensures |command| < 9 ==> r == Uncaught(StringIndexOutOfBounds) && p.tasks == old(p.tasks)
      ensures |command| >= 9 ==>
        match create(command[9..])
        case Malformed => r == Reply([TaskFormat]) && p.tasks == old(p.tasks)
        case NoDetails => r == Reply([TaskIncomplete]) && p.tasks == old(p.tasks)
        case NewTask(t) =>
          if TaskNamed(old(p.tasks), t.name) then
            r == Reply([TaskExists, "Task name: " + t.name, DistinctTaskNames])
            && p.tasks == old(p.tasks)
          else
            r == Reply([TaskAdded]) && p.tasks == old(p.tasks) + [t]
      ensures TaskNamesDistinct(old(p.tasks)) ==> TaskNamesDistinct(p.tasks)
    {
      if |command| < 9 {
        return Uncaught(StringIndexOutOfBounds);
      }
      var newTask := create(command[9..]);
      match newTask
      case Malformed =>
        return Reply([TaskFormat]);
      case NoDetails =>
        return Reply([TaskIncomplete]);
      case NewTask(t) =>
        if TaskNamed(p.tasks, t.name) {
          return Reply([TaskExists, "Task name: " + t.name, DistinctTaskNames]);
        }
        p.tasks := p.tasks + [t];
        return Reply([TaskAdded]);
    }

    /** projectDeleteTask: the valid indexes are sorted, reversed and removed
        one by one, highest first, each reported with the name of the task
        that was at that index; the parser's errors come first and the note
        about shifted indexes last, when anything was removed. */
    method ProjectDeleteTask(p: Project, command: string, parse: (string, nat) -> (seq<int>, seq<string>))
      returns (outputMessages: seq<string>)
      requires |command| > 12 ==> ValidIndexes(parse(command[12..], |p.tasks|).0, |p.tasks|)
      modifies p
      ensures p.name == old(p.name) && p.members == old(p.members)
      ensures |command| <= 12 ==> outputMessages == [NoTaskNumber] && p.tasks == old(p.tasks)
      ensures |command| > 12 ==>
        var (valid, errors) := parse(command[12..], |old(p.tasks)|);
        && p.tasks == Without(old(p.tasks), Elems(valid))
        && |p.tasks| == |old(p.tasks)| - |valid|
        && outputMessages == errors + TaskRemovalLines(old(p.tasks), HighestFirst(valid))
                                    + (if |valid| > 0 then [TaskIndexNote] else [])
    {
      if |command| <= 12 {
        return [NoTaskNumber];
      }
      var (validTaskIndexes, errors) := parse(command[12..], |p.tasks|);
      outputMessages := errors;
      var order := HighestFirst(validTaskIndexes);
      OrderInRange(validTaskIndexes, |p.tasks|);
      RemovalCount(old(p.tasks), validTaskIndexes);
      var removedLines := RemoveTasks(p, order);
      outputMessages := outputMessages + removedLines;
      if |validTaskIndexes| > 0 {
        outputMessages := outputMessages + [TaskIndexNote];
      }
    }

    /** The removal loop of projectDeleteTask: reports and removes each index
        of order in turn. */
    method RemoveTasks(p: Project, order: seq<int>) returns (lines: seq<string>)
      requires forall k :: 0 <= k < |order| ==> 1 <= order[k] <= |p.tasks|
      requires forall i, j :: 0 <= i < j < |order| ==> order[i] > order[j]
      modifies p
      ensures p.name == old(p.name) && p.members == old(p.members)
      ensures p.tasks == Without(old(p.tasks), Elems(order))
      ensures lines == TaskRemovalLines(old(p.tasks), order)
    {
      ghost var base := p.tasks;
      WithoutNothing(base);
      assert Elems(order[..0]) == {};
      lines := [];
      var k := 0;
      while k < |order|
        invariant 0 <= k <= |order|
        invariant p.name == old(p.name) && p.members == old(p.members)
        invariant p.tasks == Without(base, Elems(order[..k]))
        invariant lines == TaskRemovalLines(base, order[..k])
      {
        var index := order[k];
        RemovalStep(base, order, k);
        PrefixGrows(order, k);
        TaskLinesStep(base, order[..k], index);
        lines := lines + [TaskRemovedLine(index, p.tasks[index - 1].name)];
        p.tasks := p.tasks[..index - 1] + p.tasks[index..];
        k := k + 1;
      }
      assert order[..k] == order;
    }

    /** projectDeleteMember: like projectDeleteTask, except that with no valid
        index it answers with the parser's errors and a refusal, and that each
        removal is reported with the member's details. The member is removed
        by reference after being fetched by index; here it is removed at the
        index it was fetched from. */
    method ProjectDeleteMember(p: Project, command: string, parse: (string, nat) -> (seq<int>, seq<string>))
      returns (outputMessages: seq<string>)
      requires |command| > 14 ==> ValidIndexes(parse(command[14..], |p.members|).0, |p.members|)
      modifies p
      ensures p.name == old(p.name) && p.tasks == old(p.tasks)
      ensures |command| <= 14 ==>
        outputMessages == [NoMemberIndexes, SpaceSeparated] && p.members == old(p.members)
      ensures |command| > 14 ==>
        var (valid, errors) := parse(command[14..], |old(p.members)|);
        if |valid| == 0 then
          outputMessages == errors + [NoValidMembers] && p.members == old(p.members)
        else
          && p.members == Without(old(p.members), Elems(valid))
          && |p.members| == |old(p.members)| - |valid|
          && outputMessages == errors + MemberRemovalLines(old(p.members), HighestFirst(valid))
                                      + [MemberIndexNote]
    {
      if |command| <= 14 {
        return [NoMemberIndexes, SpaceSeparated];
      }
      var (validMemberIndexes, errors) := parse(command[14..], |p.members|);
      outputMessages := errors;
      if |validMemberIndexes| == 0 {
        outputMessages := outputMessages + [NoValidMembers];
        return;
      }
      var order := HighestFirst(validMemberIndexes);
      OrderInRange(validMemberIndexes, |p.members|);
      RemovalCount(old(p.members), validMemberIndexes);
      var removedLines := RemoveMembers(p, order);
      outputMessages := outputMessages + removedLines + [MemberIndexNote];
    }

    /** The removal loop of projectDeleteMember: fetches, reports and removes
        the member at each index of order in turn. */
    method RemoveMembers(p: Project, order: seq<int>) returns (lines: seq<string>)
      requires forall k :: 0 <= k < |order| ==> 1 <= order[k] <= |p.members|
      requires forall i, j :: 0 <= i < j < |order| ==> order[i] > order[j]
      modifies p
      ensures p.name == old(p.name) && p.tasks == old(p.tasks)
      ensures p.members == Without(old(p.members), Elems(order))
      ensures lines == MemberRemovalLines(old(p.members), order)
    {
      ghost var base := p.members;
      WithoutNothing(base);
      assert Elems(order[..0]) == {};
      lines := [];
      var k := 0;
      while k < |order|
        invariant 0 <= k <= |order|
        invariant p.name == old(p.name) && p.tasks == old(p.tasks)
        invariant p.members == Without(base, Elems(order[..k]))
        invariant lines == MemberRemovalLines(base, order[..k])
      {
        var index := order[k];
        RemovalStep(base, order, k);
        PrefixGrows(order, k);
        MemberLinesStep(base, order[..k], index);
        var memberToRemove := p.members[index - 1];
        lines := lines + [MemberRemovedLine(index, memberToRemove.details)];
        p.members := p.members[..index - 1] + p.members[index..];
        k := k + 1;
      }
      assert order[..k] == order;
    }
  }

  /** One turn of a removal loop: taking out the next, lower index of a
      descending order from what is left drops the entry originally there. */
  lemma {:induction false} RemovalStep<T>(base: seq<T>, order: seq<int>, k: nat)
    requires forall j :: 0 <= j < |order| ==> 1 <= order[j] <= |base|
    requires forall i, j :: 0 <= i < j < |order| ==> order[i] > order[j]
    requires k < |order|
    ensures var left := Without(base, Elems(order[..k]));
      && order[k] <= |left|
      && left[order[k] - 1] == base[order[k] - 1]
      && left[..order[k] - 1] + left[order[k]..] == Without(base, Elems(order[..k + 1]))
  {
    var index := order[k];
    assert forall e :: e in Elems(order[..k]) ==> e > index;
    RemoveBelowRemoved(base, Elems(order[..k]), index);
    PrefixGrows(order, k);
    assert Elems(order[..k + 1]) == Elems(order[..k]) + {index};
  }

  /** The prefix of a sequence grows by one element at a time. */
  lemma {:induction false} PrefixGrows<T>(s: seq<T>, k: nat)
    requires k < |s|
    ensures s[..k + 1] == s[..k] + [s[k]]
  {
  }

  lemma {:induction false} InitOfAppend<T>(s: seq<T>, x: T)
    ensures (s + [x])[..|s + [x]| - 1] == s
    ensures (s + [x])[|s + [x]| - 1] == x
  {
  }

  /** One more line of the task removal report. */
  lemma {:induction false} TaskLinesStep(tasks: seq<Task>, front: seq<int>, i: int)
    requires forall j :: 0 <= j < |front| ==> 1 <= front[j] <= |tasks|
    requires 1 <= i <= |tasks|
    ensures TaskRemovalLines(tasks, front + [i]) == TaskRemovalLines(tasks, front)
      + [TaskRemovedLine(i, tasks[i - 1].name)]
  {
    InitOfAppend(front, i);
  }

  /** One more line of the member removal report. */
  lemma {:induction false} MemberLinesStep(members: seq<Member>, front: seq<int>, i: int)
    requires forall j :: 0 <= j < |front| ==> 1 <= front[j] <= |members|
    requires 1 <= i <= |members|
    ensures MemberRemovalLines(members, front + [i]) == MemberRemovalLines(members, front)
      + [MemberRemovedLine(i, members[i - 1].details)]
  {
    InitOfAppend(front, i);
  }

  /** Removing the valid indexes in the removal order takes out exactly those
      positions, one entry per index. */
  lemma {:induction false} RemovalCount<T>(s: seq<T>, valid: seq<int>)
    requires ValidIndexes(valid, |s|)
    ensures Elems(HighestFirst(valid)) == Elems(valid)
    ensures |Without(s, Elems(valid))| == |s| - |valid|
  {
    HighestFirstDescends(valid, |s|);
    WithoutLength(s, Elems(valid));
    DistinctCard(valid);
  }

  /** Distinct indexes: as many positions as entries. */
  lemma {:induction false} DistinctCard(s: seq<int>)
    requires forall i, j :: 0 <= i < j < |s| ==> s[i] != s[j]
    ensures |Elems(s)| == |s|
  {
    if |s| > 0 {
      var init := s[..|s| - 1];
      var last := s[|s| - 1];
      DistinctCard(init);
      assert s == init + [last];
      assert Elems(s) == Elems(init) + {last};
      assert last !in Elems(init);
    }
  }

  /** projectDeleteTask reports the removed tasks in strictly descending
      index order, each with the name of the task originally at that index. */
  lemma {:induction false} DeleteTaskReportsHighestFirst(tasks: seq<Task>, valid: seq<int>, order: seq<int>, k: nat, l: nat)
    requires ValidIndexes(valid, |tasks|) && order == HighestFirst(valid)
    requires k < l < |valid|
    ensures |order| == |valid|
    ensures forall j :: 0 <= j < |order| ==> 1 <= order[j] <= |tasks|
    ensures |TaskRemovalLines(tasks, order)| == |valid|
    ensures order[k] > order[l]
    ensures TaskRemovalLines(tasks, order)[k]
      == TaskRemovedLine(order[k], tasks[order[k] - 1].name)
  {
    OrderInRange(valid, |tasks|);
    ReportOrder(tasks, order, k, l);
  }

  /** The report lines of any descending order of valid indices. */
  lemma {:induction false} ReportOrder(tasks: seq<Task>, order: seq<int>, k: nat, l: nat)
    requires forall j :: 0 <= j < |order| ==> 1 <= order[j] <= |tasks|
    requires forall i, j :: 0 <= i < j < |order| ==> order[i] > order[j]
    requires k < l < |order|
    ensures |TaskRemovalLines(tasks, order)| == |order|
    ensures order[k] > order[l]
    ensures TaskRemovalLines(tasks, order)[k]
      == TaskRemovedLine(order[k], tasks[order[k] - 1].name)
  {
    TaskRemovalLinesAt(tasks, order, k);
  }

  /** Every index of the removal order is one of the valid indices. */
  lemma {:induction false} OrderInRange(valid: seq<int>, n: nat)
    requires ValidIndexes(valid, n)
    ensures forall k :: 0 <= k < |HighestFirst(valid)| ==> 1 <= HighestFirst(valid)[k] <= n
    ensures forall i, j :: 0 <= i < j < |HighestFirst(valid)| ==>
      HighestFirst(valid)[i] > HighestFirst(valid)[j]
  {
    HighestFirstDescends(valid, n);
  }
}
