/** NullProject: the project the controller holds when none is being managed.
    Every query answers as for a project that does not exist (null, 0 or
    false) and every command is accepted and ignored. IProject, the
    interface it implements, only declares these operations; the class
    here carries them directly. Java's null is None. */
module NullProjects {
  import opened Wrappers
  import opened Tasks
  import opened Projects
  import opened Controller

  class NullProject {
    constructor () {
    }

    /** getDescription: there is no name. */
    function GetDescription(): (r: Option<string>)
      ensures r.None?
    {
      None
    }

    /** getMembers: there is no member list. */
    function GetMembers(): (r: Option<seq<Member>>)
      ensures r.None?
    {
      None
    }

    /** getTasks: there is no task list. */
    function GetTasks(): (r: Option<seq<Task>>)
      ensures r.None?
    {
      None
    }

    /** getNumOfMembers: no members. */
    function GetNumOfMembers(): (n: nat)
      ensures n == 0
    {
      0
    }

    /** getNumOfTasks: no tasks. */
    function GetNumOfTasks(): (n: nat)
      ensures n == 0
    {
      0
    }

    /** memberIndexExists: no index names a member. */
    function MemberIndexExists(indexNumber: int): (b: bool)
      ensures !b
    {
      false
    }

    /** getTask: no index names a task. */
    function GetTask(taskIndex: int): (r: Option<Task>)
      ensures r.None?
    {
      None
    }

    /** getAssignedTaskList: there is no assignment list. */
    function GetAssignedTaskList(): (r: Option<seq<string>>)
      ensures r.None?
    {
      None
    }

    /** The commands below have empty bodies and no modifies clause, which is
        what makes them change nothing. StillEmpty reads no state, so it holds
        of every null project; their ensures only repeat what the queries
        above already promise. */
    predicate StillEmpty() {
      GetNumOfMembers() == 0 && GetNumOfTasks() == 0 && GetMembers().None? && GetTasks().None?
    }

    method AddMember(newMember: Member)
      ensures StillEmpty()
    {
    }

    method EditMember(memberIndexNumber: int, updatedMemberDetails: string)
      ensures StillEmpty()
    {
    }

    method RemoveMember(toBeRemoved: Member)
      ensures StillEmpty()
    {
    }

    method AddTask(newTask: Task)
      ensures StillEmpty()
    {
    }

    method RemoveTask(taskIndexNumber: int)
      ensures StillEmpty()
    {
    }

    method EditTask(updatedTaskDetails: string)
      ensures StillEmpty()
    {
    }

    method EditTaskRequirements(taskIndexNumber: int, updatedTaskRequirements: seq<string>, haveRemove: bool)
      ensures StillEmpty()
    {
    }

    method AssignTaskToMembers(task: Task, member: Member)
      ensures StillEmpty()
    {
    }

    method AssignMemberToTasks(member: Member, task: Task)
      ensures StillEmpty()
    {
    }
  }

  /** With the null project's counts, no "edit task" or "edit member"
      command, whatever its text, reaches an edit: there is no index in
      1..0. */
  lemma {:induction false} NullProjectRejectsEdits(np: NullProject, command: string)
    ensures ProjectEditTask(np.GetNumOfTasks(), command).edit.None?
    ensures ProjectEditMember(np.GetNumOfMembers(), command).edit.None?
  {
  }

  /** With the null project's counts, the only valid list of indices to
      delete is the empty one. */
  lemma {:induction false} NullProjectHasNothingToDelete(np: NullProject, idx: seq<int>)
    requires ValidIndexes(idx, np.GetNumOfTasks()) || ValidIndexes(idx, np.GetNumOfMembers())
    ensures idx == []
  {
    IndexNeedsAnEntry(idx, np.GetNumOfTasks());
    IndexNeedsAnEntry(idx, np.GetNumOfMembers());
  }

  /** A valid index names one of the n entries, so there must be one. */
  lemma {:induction false} IndexNeedsAnEntry(idx: seq<int>, n: nat)
    ensures ValidIndexes(idx, n) && |idx| > 0 ==> n >= 1
  {
    if |idx| > 0 {
      assert idx[0] in idx;
    }
  }
}
