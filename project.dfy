/** The project a user manages: its name, its members and its tasks, 1-based
    as the user sees them. Project.java and MemberList.java are not part of
    this model: the project is kept as the two lists the controller reads and
    changes. */
module Projects {
  import opened Wrappers
  import opened Tasks

  /** A member as the controller sees it: getName, getRole, getDetails. */
  datatype Member = Member(name: string, role: string, details: string)

  /** What MemberFactory.create hands back: a member, or a member whose name
      is null and whose details carry the error message. */
  datatype MemberCreation = NewMember(member: Member) | NoName(message: string)

  /** What TaskFactory.createTask hands back: a task, a task whose details are
      null, or a NumberFormatException or ParseException it throws. */
  datatype TaskCreation = NewTask(task: Task) | NoDetails | Malformed

  /** No two members share a name. */
  ghost predicate MemberNamesDistinct(ms: seq<Member>) {
    forall i, j :: 0 <= i < j < |ms| ==> ms[i].name != ms[j].name
  }

  /** No two tasks share a name. */
  ghost predicate TaskNamesDistinct(ts: seq<Task>) {
    forall i, j :: 0 <= i < j < |ts| ==> ts[i].name != ts[j].name
  }

  /** Project.memberExists: some member already has this name. */
  predicate MemberNamed(ms: seq<Member>, name: string) {
    exists i :: 0 <= i < |ms| && ms[i].name == name
  }

  /** Project.taskExists: some task already has this name. */
  predicate TaskNamed(ts: seq<Task>, name: string) {
    exists i :: 0 <= i < |ts| && ts[i].name == name
  }

  class Project {
    var name: string
    var members: seq<Member>
    var tasks: seq<Task>

    constructor (name: string)
      ensures this.name == name && members == [] && tasks == []
    {
      this.name := name;
      members := [];
      tasks := [];
    }

    /** getNumOfMembers. */
    function NumOfMembers(): (n: nat)
      reads this
      ensures n == |members|
    {
      |members|
    }

    /** getNumOfTasks. */
    function NumOfTasks(): (n: nat)
      reads this
      ensures n == |tasks|
    {
      |tasks|
    }
  }
}
