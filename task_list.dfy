/** models/task/TaskList.java: the 1-based list of a project's tasks, with the
    flag-ordered field edit and the requirement edit. */
module Tasks {
  import opened Wrappers
  import opened JavaText
  import opened Sorting
  import opened Positions

  /** A task as the list's edits see it. Task.java is not part of this model:
      the due date and the state are kept as the text handed to setDueDate and
      setTaskState. */
  datatype Task = Task(
    name: string,
    priority: int,
    dueDate: string,
    credit: int,
    state: string,
    requirements: seq<string>)

  // ---------------------------------------------------------------------------
  // editTask: the flags, their order, and the field each one sets

  /** The split pattern " [itpdcs]/" of editTask. */
  const EditMarker: Delimiter := FlagMarker("itpdcs")

  /** The flags editTask looks up, in the order it puts them into its TreeMap. */
  const EditFlags: string := "tpdcs"

  /** The first position of " f/" in the command, or -1. */
  function FlagAt(s: string, f: char): int {
    IndexOf(s, [' ', f, '/'])
  }

  /** The entry set of a TreeMap<Integer, String>: keys strictly ascending. */
  type Entries = seq<(int, char)>

  ghost predicate Ascending(m: Entries) {
    forall i, j :: 0 <= i < j < |m| ==> m[i].0 < m[j].0
  }

  /** TreeMap.put(k, v): k now maps to v, every other entry stays, and the keys
      stay ascending. */
  function Put(m: Entries, k: int, v: char): (r: Entries)
    requires Ascending(m)
    ensures Ascending(r)
    ensures (k, v) in r
    ensures forall e :: e in r ==> e == (k, v) || (e in m && e.0 != k)
    ensures forall e :: e in m && e.0 != k ==> e in r
  {
    if |m| == 0 then [(k, v)]
    else if k < m[0].0 then [(k, v)] + m
    else if k == m[0].0 then [(k, v)] + m[1..]
    else [m[0]] + Put(m[1..], k, v)
  }

  /** The TreeMap editTask builds: every flag keyed by its first position; the
      absent flags all land on key -1, each overwriting the one before. */
  function FlagOrder(s: string): Entries {
    var m0: Entries := [];
    var m1 := Put(m0, FlagAt(s, 't'), 't');
    var m2 := Put(m1, FlagAt(s, 'p'), 'p');
    var m3 := Put(m2, FlagAt(s, 'd'), 'd');
    var m4 := Put(m3, FlagAt(s, 'c'), 'c');
    Put(m4, FlagAt(s, 's'), 's')
  }

  /** The flags of the entries whose key is not -1, in key order: the flags
      editTask applies, in the order it applies them. */
  function PresentFlags(es: Entries): string {
    if |es| == 0 then []
    else if es[0].0 == -1 then PresentFlags(es[1..])
    else [es[0].1] + PresentFlags(es[1..])
  }

  /** Field f of t holds the value the raw text gives it. */
  predicate FieldIs(t: Task, f: char, raw: string) {
    match f
    case 't' => t.name == raw
    case 'p' => ParseInt(raw) == Some(t.priority)
    case 'd' => t.dueDate == raw
    case 'c' => ParseInt(raw) == Some(t.credit)
    case 's' => t.state == raw
    case _ => true
  }

  /** Field f is the same in t and u. */
  predicate SameField(t: Task, u: Task, f: char) {
    match f
    case 't' => t.name == u.name
    case 'p' => t.priority == u.priority
    case 'd' => t.dueDate == u.dueDate
    case 'c' => t.credit == u.credit
    case 's' => t.state == u.state
    case _ => true
  }

  /** Every field of t other than f, the requirements included, is as in u. */
  predicate OthersSame(t: Task, u: Task, f: char) {
    && (f == 't' || SameField(t, u, 't'))
    && (f == 'p' || SameField(t, u, 'p'))
    && (f == 'd' || SameField(t, u, 'd'))
    && (f == 'c' || SameField(t, u, 'c'))
    && (f == 's' || SameField(t, u, 's'))
    && t.requirements == u.requirements
  }

  /** One case of editTask's switch, with the exceptions its statement throws in
      Java's evaluation order: for t, d and s the list lookup comes before the
      array element; for p and c the array element and parseInt come first. */
  function ApplyFlag(tasks: seq<Task>, ti: int, f: char, parts: seq<string>, cur: nat): (r: Result<seq<Task>>)
    ensures f !in EditFlags ==> r == Ok(tasks)
    ensures f in EditFlags ==>
      (r.Err? <==> !(1 <= ti <= |tasks|) || cur >= |parts| || (f in "pc" && ParseInt(parts[cur]).None?))
    ensures r.Ok? && f in EditFlags ==>
      && 1 <= ti <= |tasks| && cur < |parts| && |r.value| == |tasks|
      && FieldIs(r.value[ti - 1], f, parts[cur])
      && OthersSame(r.value[ti - 1], tasks[ti - 1], f)
      && (forall j :: 0 <= j < |tasks| && j != ti - 1 ==> r.value[j] == tasks[j])
  {
    var inRange := 1 <= ti <= |tasks|;
    match f
    case 't' =>
      if !inRange then Err(IndexOutOfBounds)
      else if cur >= |parts| then Err(ArrayIndexOutOfBounds)
      else Ok(tasks[ti - 1 := tasks[ti - 1].(name := parts[cur])])
    case 'p' =>
      if cur >= |parts| then Err(ArrayIndexOutOfBounds)
      else if ParseInt(parts[cur]).None? then Err(NumberFormat)
      else if !inRange then Err(IndexOutOfBounds)
      else Ok(tasks[ti - 1 := tasks[ti - 1].(priority := ParseInt(parts[cur]).value)])
    case 'd' =>
      if !inRange then Err(IndexOutOfBounds)
      else if cur >= |parts| then Err(ArrayIndexOutOfBounds)
      else Ok(tasks[ti - 1 := tasks[ti - 1].(dueDate := parts[cur])])
    case 'c' =>
      if cur >= |parts| then Err(ArrayIndexOutOfBounds)
      else if ParseInt(parts[cur]).None? then Err(NumberFormat)
      else if !inRange then Err(IndexOutOfBounds)
      else Ok(tasks[ti - 1 := tasks[ti - 1].(credit := ParseInt(parts[cur]).value)])
    case 's' =>
      if !inRange then Err(IndexOutOfBounds)
      else if cur >= |parts| then Err(ArrayIndexOutOfBounds)
      else Ok(tasks[ti - 1 := tasks[ti - 1].(state := parts[cur])])
    case _ => Ok(tasks)
  }

  /** The loop over the TreeMap's entries: entries keyed -1 are skipped; every
      other one applies its flag with segment cur and moves cur on. A failure
      stops the loop and keeps the fields already set. */
  function ApplyEntries(tasks: seq<Task>, ti: int, es: Entries, parts: seq<string>, cur: nat): (seq<Task>, Outcome)
    decreases |es|
  {
    if |es| == 0 then (tasks, Done)
    else if es[0].0 == -1 then ApplyEntries(tasks, ti, es[1..], parts, cur)
    else match ApplyFlag(tasks, ti, es[0].1, parts, cur)
      case Err(e) => (tasks, Threw(e))
      case Ok(next) => ApplyEntries(next, ti, es[1..], parts, cur + 1)
  }

  /** The task index editTask reads from segment 1, when there is one. */
  function EditTarget(details: string): Option<int> {
    var parts := Split(details, EditMarker);
    if |parts| < 2 then None else ParseInt(parts[1])
  }

  /** The list and the outcome after editTask(details). */
  function EditTaskResult(tasks: seq<Task>, details: string): (seq<Task>, Outcome) {
    var parts := Split(details, EditMarker);
    if |parts| < 2 then (tasks, Threw(ArrayIndexOutOfBounds))
    else match ParseInt(parts[1])
      case None => (tasks, Threw(NumberFormat))
      case Some(ti) => ApplyEntries(tasks, ti, FlagOrder(details), parts, 2)
  }

  /** Every field the flags in fs do not name is as in u. */
  predicate KeptUnless(t: Task, u: Task, fs: string) {
    && ('t' in fs || SameField(t, u, 't'))
    && ('p' in fs || SameField(t, u, 'p'))
    && ('d' in fs || SameField(t, u, 'd'))
    && ('c' in fs || SameField(t, u, 'c'))
    && ('s' in fs || SameField(t, u, 's'))
  }

  /** Each entry of the map is a known flag keyed by its first position. */
  ghost predicate WellKeyed(s: string, es: Entries) {
    forall e :: e in es ==> e.1 in EditFlags && e.0 == FlagAt(s, e.1)
  }

  /** Two different flags never start at the same position. */
  lemma {:induction false} FlagPositionsDistinct(s: string)
    ensures forall f, g :: f != g && FlagAt(s, f) != -1 ==> FlagAt(s, f) != FlagAt(s, g)
  {
    forall f, g | f != g && FlagAt(s, f) != -1
      ensures FlagAt(s, f) != FlagAt(s, g)
    {
      var i := FlagAt(s, f);
      if FlagAt(s, g) == i {
        assert false;
      }
    }
  }

  /** The TreeMap holds exactly the flags that occur, each under its first
      position, plus at most one entry under -1. */
  lemma {:induction false} FlagOrderContents(s: string)
    ensures Ascending(FlagOrder(s))
    ensures WellKeyed(s, FlagOrder(s))
    ensures forall f :: f in EditFlags && FlagAt(s, f) != -1 ==> (FlagAt(s, f), f) in FlagOrder(s)
  {
    var m1 := Put([], FlagAt(s, 't'), 't');
    var m2 := Put(m1, FlagAt(s, 'p'), 'p');
    var m3 := Put(m2, FlagAt(s, 'd'), 'd');
    var m4 := Put(m3, FlagAt(s, 'c'), 'c');
    PutFlag(s, [], {}, 't');
    PutFlag(s, m1, {'t'}, 'p');
    PutFlag(s, m2, {'t', 'p'}, 'd');
    PutFlag(s, m3, {'t', 'p', 'd'}, 'c');
    PutFlag(s, m4, {'t', 'p', 'd', 'c'}, 's');
    EditFlagsAre();
  }

  /** The five flags of editTask. */
  lemma {:induction false} EditFlagsAre()
    ensures forall f :: f in EditFlags <==> f in {'t', 'p', 'd', 'c', 's'}
  {
    assert EditFlags == ['t', 'p', 'd', 'c', 's'];
  }

  /** The map after putting the flags fs: ascending, well keyed, and holding
      every flag of fs that occurs. */
  ghost predicate HoldsFlags(s: string, m: Entries, fs: set<char>) {
    && Ascending(m) && WellKeyed(s, m)
    && forall f :: f in fs && FlagAt(s, f) != -1 ==> (FlagAt(s, f), f) in m
  }

  /** One put of editTask keeps HoldsFlags, now for one more flag. */
  lemma {:induction false} PutFlag(s: string, m: Entries, fs: set<char>, f: char)
    requires HoldsFlags(s, m, fs) && f in EditFlags
    ensures HoldsFlags(s, Put(m, FlagAt(s, f), f), fs + {f})
  {
    FlagPositionsDistinct(s);
    var r := Put(m, FlagAt(s, f), f);
    forall g | g in fs + {f} && FlagAt(s, g) != -1
      ensures (FlagAt(s, g), g) in r
    {
      if g != f {
        assert g in fs;
        assert FlagAt(s, g) != FlagAt(s, f);
      }
    }
  }

  /** The flags editTask applies are the ones present in the command, and it
      applies them in the order they occur. */
  lemma {:induction false} PresentFlagsInTextOrder(s: string)
    ensures var fs := PresentFlags(FlagOrder(s));
      && (forall f :: f in fs <==> f in EditFlags && FlagAt(s, f) != -1)
      && (forall i, j :: 0 <= i < j < |fs| ==> FlagAt(s, fs[i]) < FlagAt(s, fs[j]))
  {
    FlagOrderContents(s);
    var es := FlagOrder(s);
    PresentFlagsOfEntries(s, es);
    forall f | f in EditFlags && FlagAt(s, f) != -1
      ensures f in PresentFlags(es)
    {
      assert (FlagAt(s, f), f) in es;
    }
  }

  lemma {:induction false} PresentFlagsOfEntries(s: string, es: Entries)
    requires Ascending(es) && WellKeyed(s, es)
    ensures var fs := PresentFlags(es);
      && (forall e :: e in es && e.0 != -1 ==> e.1 in fs)
      && (forall f :: f in fs ==> f in EditFlags && FlagAt(s, f) != -1)
      && (|es| > 0 ==> forall f :: f in fs ==> es[0].0 <= FlagAt(s, f))
      && (forall i, j :: 0 <= i < j < |fs| ==> FlagAt(s, fs[i]) < FlagAt(s, fs[j]))
    decreases |es|
  {
    if |es| > 0 {
      AscendingTail(es);
      WellKeyedTail(s, es);
      PresentFlagsOfEntries(s, es[1..]);
      PresentFlagsStep(s, es);
    }
  }

  lemma {:induction false} AscendingTail(es: Entries)
    requires |es| > 0 && Ascending(es)
    ensures Ascending(es[1..])
    ensures |es| > 1 ==> es[0].0 < es[1].0
  {
    var rest := es[1..];
    forall i, j | 0 <= i < j < |rest| ensures rest[i].0 < rest[j].0 {
      assert rest[i] == es[i + 1] && rest[j] == es[j + 1];
    }
  }

  lemma {:induction false} WellKeyedTail(s: string, es: Entries)
    requires |es| > 0 && WellKeyed(s, es)
    ensures WellKeyed(s, es[1..])
    ensures es[0].1 in EditFlags && es[0].0 == FlagAt(s, es[0].1)
  {
    assert es[0] in es;
    assert forall e :: e in es[1..] ==> e in es;
  }

  /** One entry in front of entries whose applied flags are already known. */
  lemma {:induction false} PresentFlagsStep(s: string, es: Entries)
    requires |es| > 0
    requires es[0].1 in EditFlags && es[0].0 == FlagAt(s, es[0].1)
    requires |es| > 1 ==> es[0].0 < es[1].0
    requires var fr := PresentFlags(es[1..]);
      && (forall e :: e in es[1..] && e.0 != -1 ==> e.1 in fr)
      && (forall f :: f in fr ==> f in EditFlags && FlagAt(s, f) != -1)
      && (|es| > 1 ==> forall f :: f in fr ==> es[1].0 <= FlagAt(s, f))
      && (forall i, j :: 0 <= i < j < |fr| ==> FlagAt(s, fr[i]) < FlagAt(s, fr[j]))
    ensures var fs := PresentFlags(es);
      && (forall e :: e in es && e.0 != -1 ==> e.1 in fs)
      && (forall f :: f in fs ==> f in EditFlags && FlagAt(s, f) != -1)
      && (forall f :: f in fs ==> es[0].0 <= FlagAt(s, f))
      && (forall i, j :: 0 <= i < j < |fs| ==> FlagAt(s, fs[i]) < FlagAt(s, fs[j]))
  {
    StepMembers(es);
    StepFlagsValid(s, es);
    StepLowerBound(s, es);
    StepOrder(s, es);
  }

  /** Applied flags stay in text order when one entry goes in front. */
  lemma {:induction false} StepOrder(s: string, es: Entries)
    requires |es| > 0
    requires es[0].0 == FlagAt(s, es[0].1)
    requires |es| > 1 ==> es[0].0 < es[1].0
    requires |es| > 1 ==> forall f :: f in PresentFlags(es[1..]) ==> es[1].0 <= FlagAt(s, f)
    requires InTextOrder(s, PresentFlags(es[1..]))
    ensures InTextOrder(s, PresentFlags(es))
  {
    var fr := PresentFlags(es[1..]);
    if es[0].0 != -1 {
      assert PresentFlags(es) == [es[0].1] + fr;
      var key := FlagKey(s);
      forall f | f in fr ensures key(es[0].1) < key(f) {
        assert es[1].0 <= FlagAt(s, f);
      }
      ConsIncreasing(key, es[0].1, fr);
    }
  }

  /** The position of each flag in the command, as a function. */
  function FlagKey(s: string): char -> int {
    f => FlagAt(s, f)
  }

  /** An element placed before elements of larger keys, themselves in
      increasing key order, keeps the keys increasing. */
  lemma {:induction false} ConsIncreasing<T>(key: T -> int, x: T, fr: seq<T>)
    requires forall f :: f in fr ==> key(x) < key(f)
    requires forall i, j :: 0 <= i < j < |fr| ==> key(fr[i]) < key(fr[j])
    ensures var fs := [x] + fr;
      forall i, j :: 0 <= i < j < |fs| ==> key(fs[i]) < key(fs[j])
  {
    var fs := [x] + fr;
    forall i, j | 0 <= i < j < |fs| ensures key(fs[i]) < key(fs[j]) {
      assert fs[j] == fr[j - 1];
      if i > 0 {
        assert fs[i] == fr[i - 1];
      } else {
        assert fr[j - 1] in fr;
      }
    }
  }

  /** The flags occur in the command in this order. */
  ghost predicate InTextOrder(s: string, fs: string) {
    forall i, j :: 0 <= i < j < |fs| ==> FlagAt(s, fs[i]) < FlagAt(s, fs[j])
  }

  /** Every present entry's flag is applied, one entry at a time. */
  lemma {:induction false} StepMembers(es: Entries)
    requires |es| > 0
    requires forall e :: e in es[1..] && e.0 != -1 ==> e.1 in PresentFlags(es[1..])
    ensures forall e :: e in es && e.0 != -1 ==> e.1 in PresentFlags(es)
  {
    var rest := es[1..];
    assert es == [es[0]] + rest;
    forall e | e in es && e.0 != -1 ensures e.1 in PresentFlags(es) {
      if e != es[0] {
        assert e in rest;
      }
    }
  }

  /** Every applied flag is an edit flag that occurs in the command. */
  lemma {:induction false} StepFlagsValid(s: string, es: Entries)
    requires |es| > 0
    requires es[0].1 in EditFlags && es[0].0 == FlagAt(s, es[0].1)
    requires forall f :: f in PresentFlags(es[1..]) ==> f in EditFlags && FlagAt(s, f) != -1
    ensures forall f :: f in PresentFlags(es) ==> f in EditFlags && FlagAt(s, f) != -1
  {
  }

  /** No applied flag occurs before the first entry's key. */
  lemma {:induction false} StepLowerBound(s: string, es: Entries)
    requires |es| > 0
    requires es[0].0 == FlagAt(s, es[0].1)
    requires |es| > 1 ==> es[0].0 < es[1].0
    requires |es| > 1 ==> forall f :: f in PresentFlags(es[1..]) ==> es[1].0 <= FlagAt(s, f)
    ensures forall f :: f in PresentFlags(es) ==> es[0].0 <= FlagAt(s, f)
  {
  }

  /** FieldIs survives when the field is kept. */
  lemma {:induction false} FieldIsKept(t: Task, u: Task, f: char, raw: string)
    requires FieldIs(u, f, raw) && SameField(t, u, f)
    ensures FieldIs(t, f, raw)
  {
  }

  /** The flags of the entries after the first are the flags after the first
      applied one. */
  lemma {:induction false} PresentFlagsTail(es: Entries)
    requires |es| > 0
    ensures es[0].0 == -1 ==> PresentFlags(es) == PresentFlags(es[1..])
    ensures es[0].0 != -1 ==> PresentFlags(es) == [es[0].1] + PresentFlags(es[1..])
  {
  }

  /** The entry loop of editTask changes only task ti, never its requirements
      and never a field whose flag is absent, even when a flag throws half
      way. */
  lemma {:induction false} ApplyEntriesFrame(tasks: seq<Task>, ti: int, es: Entries, parts: seq<string>, cur: nat)
    requires forall e :: e in es ==> e.1 in EditFlags
    ensures var (r, o) := ApplyEntries(tasks, ti, es, parts, cur);
      var fs := PresentFlags(es);
      && |r| == |tasks|
      && (forall j :: 0 <= j < |tasks| && j != ti - 1 ==> r[j] == tasks[j])
      && (!(1 <= ti <= |tasks|) ==> r == tasks && (o == Done <==> |fs| == 0))
      && (1 <= ti <= |tasks| ==>
            && KeptUnless(r[ti - 1], tasks[ti - 1], fs)
            && r[ti - 1].requirements == tasks[ti - 1].requirements)
    decreases |es|
  {
    if |es| > 0 {
      var rest := es[1..];
      assert forall e :: e in rest ==> e in es;
      PresentFlagsTail(es);
      if es[0].0 == -1 {
        ApplyEntriesFrame(tasks, ti, rest, parts, cur);
      } else {
        assert es[0] in es;
        var f := es[0].1;
        var ap := ApplyFlag(tasks, ti, f, parts, cur);
        if ap.Ok? {
          var next := ap.value;
          ApplyEntriesFrame(next, ti, rest, parts, cur + 1);
          var (r, o) := ApplyEntries(next, ti, rest, parts, cur + 1);
          assert ApplyEntries(tasks, ti, es, parts, cur) == (r, o);
          FrameStep(tasks, next, r, ti, f, PresentFlags(rest));
        } else {
          assert ApplyEntries(tasks, ti, es, parts, cur) == (tasks, Threw(ap.e));
          if 1 <= ti <= |tasks| {
            KeptSelf(tasks[ti - 1], PresentFlags(es));
          }
        }
      }
    }
  }

  /** A task keeps all its fields. */
  lemma {:induction false} KeptSelf(t: Task, fs: string)
    ensures KeptUnless(t, t, fs)
  {
  }

  /** One applied flag followed by the rest of the loop: the frames compose. */
  lemma {:induction false} FrameStep(tasks: seq<Task>, next: seq<Task>, r: seq<Task>, ti: int, f: char, fr: string)
    requires 1 <= ti <= |tasks| && |next| == |tasks| && |r| == |next|
    requires forall j :: 0 <= j < |tasks| && j != ti - 1 ==> next[j] == tasks[j]
    requires forall j :: 0 <= j < |next| && j != ti - 1 ==> r[j] == next[j]
    requires OthersSame(next[ti - 1], tasks[ti - 1], f)
    requires KeptUnless(r[ti - 1], next[ti - 1], fr)
    requires r[ti - 1].requirements == next[ti - 1].requirements
    ensures forall j :: 0 <= j < |tasks| && j != ti - 1 ==> r[j] == tasks[j]
    ensures KeptUnless(r[ti - 1], tasks[ti - 1], [f] + fr)
    ensures r[ti - 1].requirements == tasks[ti - 1].requirements
  {
  }

  /** When the entry loop of editTask completes, the k-th applied flag holds
      segment cur + k. */
  lemma {:induction false} ApplyEntriesAssigns(tasks: seq<Task>, ti: int, es: Entries, parts: seq<string>, cur: nat)
    requires forall e :: e in es ==> e.1 in EditFlags
    requires var fs := PresentFlags(es); forall i, j :: 0 <= i < j < |fs| ==> fs[i] != fs[j]
    ensures var (r, o) := ApplyEntries(tasks, ti, es, parts, cur);
      var fs := PresentFlags(es);
      o == Done && |fs| > 0 ==>
        && 1 <= ti <= |tasks| && |r| == |tasks|
        && cur + |fs| <= |parts|
        && forall k :: 0 <= k < |fs| ==> FieldIs(r[ti - 1], fs[k], parts[cur + k])
    decreases |es|
  {
    if |es| > 0 {
      var rest := es[1..];
      assert forall e :: e in rest ==> e in es;
      PresentFlagsTail(es);
      var fs := PresentFlags(es);
      var fr := PresentFlags(rest);
      if es[0].0 == -1 {
        ApplyEntriesAssigns(tasks, ti, rest, parts, cur);
      } else {
        var f := es[0].1;
        assert es[0] in es;
        DistinctTail(f, fr);
        var ap := ApplyFlag(tasks, ti, f, parts, cur);
        if ap.Ok? {
          var next := ap.value;
          ApplyEntriesAssigns(next, ti, rest, parts, cur + 1);
          KeptByRest(next, ti, rest, parts, cur + 1);
          AssignsCompose(tasks, next, ti, es, parts, cur);
        } else {
          assert ApplyEntries(tasks, ti, es, parts, cur).1.Threw?;
        }
      }
    }
  }

  /** The first applied entry of ApplyEntriesAssigns followed by the rest. */
  lemma {:induction false} AssignsCompose(tasks: seq<Task>, next: seq<Task>, ti: int, es: Entries, parts: seq<string>, cur: nat)
    requires |es| > 0 && es[0].0 != -1 && es[0].1 in EditFlags
    requires ApplyFlag(tasks, ti, es[0].1, parts, cur) == Ok(next)
    requires es[0].1 !in PresentFlags(es[1..])
    requires var (r, o) := ApplyEntries(next, ti, es[1..], parts, cur + 1);
      var fs := PresentFlags(es[1..]);
      o == Done && |fs| > 0 ==>
        && 1 <= ti <= |next| && |r| == |next|
        && cur + 1 + |fs| <= |parts|
        && forall k :: 0 <= k < |fs| ==> FieldIs(r[ti - 1], fs[k], parts[cur + 1 + k])
    requires 1 <= ti <= |next|
    requires var r := ApplyEntries(next, ti, es[1..], parts, cur + 1).0;
      |r| == |next| && KeptUnless(r[ti - 1], next[ti - 1], PresentFlags(es[1..]))
    ensures var (r, o) := ApplyEntries(tasks, ti, es, parts, cur);
      var fs := PresentFlags(es);
      o == Done && |fs| > 0 ==>
        && 1 <= ti <= |tasks| && |r| == |tasks|
        && cur + |fs| <= |parts|
        && forall k :: 0 <= k < |fs| ==> FieldIs(r[ti - 1], fs[k], parts[cur + k])
  {
    var f, fr := es[0].1, PresentFlags(es[1..]);
    PresentFlagsTail(es);
    var (r, o) := ApplyEntries(next, ti, es[1..], parts, cur + 1);
    assert ApplyEntries(tasks, ti, es, parts, cur) == (r, o);
    if o == Done {
      AssignsStep(r[ti - 1], next[ti - 1], f, fr, parts, cur);
    }
  }

  /** The part of ApplyEntriesFrame the assignment proof needs. */
  lemma {:induction false} KeptByRest(tasks: seq<Task>, ti: int, es: Entries, parts: seq<string>, cur: nat)
    requires forall e :: e in es ==> e.1 in EditFlags
    requires 1 <= ti <= |tasks|
    ensures var r := ApplyEntries(tasks, ti, es, parts, cur).0;
      |r| == |tasks| && KeptUnless(r[ti - 1], tasks[ti - 1], PresentFlags(es))
  {
    ApplyEntriesFrame(tasks, ti, es, parts, cur);
  }

  /** In a string of distinct flags the first does not occur again, and the
      rest are distinct. */
  lemma {:induction false} DistinctTail(f: char, fr: string)
    requires var fs := [f] + fr; forall i, j :: 0 <= i < j < |fs| ==> fs[i] != fs[j]
    ensures f !in fr
    ensures forall i, j :: 0 <= i < j < |fr| ==> fr[i] != fr[j]
  {
    var fs := [f] + fr;
    forall k | 0 <= k < |fr| ensures fr[k] != f {
      assert fs[k + 1] == fr[k] && fs[0] == f;
    }
    forall i, j | 0 <= i < j < |fr| ensures fr[i] != fr[j] {
      assert fs[i + 1] == fr[i] && fs[j + 1] == fr[j];
    }
  }

  lemma {:induction false} AssignsStep(t: Task, u: Task, f: char, fr: string, parts: seq<string>, cur: nat)
    requires f !in fr && cur + 1 + |fr| <= |parts|
    requires FieldIs(u, f, parts[cur]) && KeptUnless(t, u, fr)
    requires forall k :: 0 <= k < |fr| ==> FieldIs(t, fr[k], parts[cur + 1 + k])
    ensures forall k :: 0 <= k < 1 + |fr| ==> FieldIs(t, ([f] + fr)[k], parts[cur + k])
  {
    assert SameField(t, u, f);
    forall k | 0 <= k < 1 + |fr| ensures FieldIs(t, ([f] + fr)[k], parts[cur + k]) {
      if k > 0 {
        assert ([f] + fr)[k] == fr[k - 1];
      }
    }
  }

  /** editTask end to end: the command's task index is read from segment 1;
      only that task changes and never its requirements; the fields of flags
      that do not occur are kept; and when the edit completes, the k-th flag
      in text order has taken segment k + 2 of the split. */
  lemma {:induction false} EditTaskSetsFieldsInTextOrder(tasks: seq<Task>, details: string)
    ensures var (r, o) := EditTaskResult(tasks, details);
      var fs := PresentFlags(FlagOrder(details));
      var parts := Split(details, EditMarker);
      && |r| == |tasks|
      && (EditTarget(details).None? ==> r == tasks && o.Threw?)
      && (EditTarget(details).Some? ==>
            var ti := EditTarget(details).value;
            && (forall j :: 0 <= j < |tasks| && j != ti - 1 ==> r[j] == tasks[j])
            && (1 <= ti <= |tasks| ==>
                  KeptUnless(r[ti - 1], tasks[ti - 1], fs)
                  && r[ti - 1].requirements == tasks[ti - 1].requirements)
            && (o == Done && |fs| > 0 ==>
                  && 1 <= ti <= |tasks|
                  && 2 + |fs| <= |parts|
                  && forall k :: 0 <= k < |fs| ==> FieldIs(r[ti - 1], fs[k], parts[2 + k])))
  {
    var parts := Split(details, EditMarker);
    if |parts| >= 2 && ParseInt(parts[1]).Some? {
      var ti := ParseInt(parts[1]).value;
      var es := FlagOrder(details);
      assert EditTarget(details) == Some(ti);
      assert EditTaskResult(tasks, details) == ApplyEntries(tasks, ti, es, parts, 2);
      FlagOrderIsApplicable(details);
      EntriesEffect(tasks, ti, es, parts);
    }
  }

  /** The entry loop from entry i: entry i, then the ones after it. */
  lemma {:induction false} EntriesFrom(tasks: seq<Task>, ti: int, es: Entries, i: nat, parts: seq<string>, cur: nat)
    requires i < |es|
    ensures ApplyEntries(tasks, ti, es[i..], parts, cur)
      == if es[i].0 == -1 then ApplyEntries(tasks, ti, es[i + 1..], parts, cur)
         else match ApplyFlag(tasks, ti, es[i].1, parts, cur)
           case Err(e) => (tasks, Threw(e))
           case Ok(next) => ApplyEntries(next, ti, es[i + 1..], parts, cur + 1)
  {
    SuffixTail(es, i);
  }

  lemma {:induction false} SuffixTail<T>(s: seq<T>, i: nat)
    requires i < |s|
    ensures |s[i..]| > 0 && s[i..][0] == s[i] && s[i..][1..] == s[i + 1..]
  {
  }

  /** What the entry loop does, started at segment 2, for entries of known
      flags applied at most once each. */
  lemma {:induction false} EntriesEffect(tasks: seq<Task>, ti: int, es: Entries, parts: seq<string>)
    requires forall e :: e in es ==> e.1 in EditFlags
    requires var fs := PresentFlags(es); forall i, j :: 0 <= i < j < |fs| ==> fs[i] != fs[j]
    ensures var (r, o) := ApplyEntries(tasks, ti, es, parts, 2);
      var fs := PresentFlags(es);
      && |r| == |tasks|
      && (forall j :: 0 <= j < |tasks| && j != ti - 1 ==> r[j] == tasks[j])
      && (1 <= ti <= |tasks| ==>
            KeptUnless(r[ti - 1], tasks[ti - 1], fs)
            && r[ti - 1].requirements == tasks[ti - 1].requirements)
      && (o == Done && |fs| > 0 ==>
            && 1 <= ti <= |tasks|
            && 2 + |fs| <= |parts|
            && forall k :: 0 <= k < |fs| ==> FieldIs(r[ti - 1], fs[k], parts[2 + k]))
  {
    ApplyEntriesFrame(tasks, ti, es, parts, 2);
    ApplyEntriesAssigns(tasks, ti, es, parts, 2);
  }

  /** The TreeMap meets what the entry-loop lemmas ask of it. */
  lemma {:induction false} FlagOrderIsApplicable(s: string)
    ensures forall e :: e in FlagOrder(s) ==> e.1 in EditFlags
    ensures var fs := PresentFlags(FlagOrder(s)); forall i, j :: 0 <= i < j < |fs| ==> fs[i] != fs[j]
  {
    PresentFlagsInTextOrder(s);
    FlagOrderContents(s);
    OrderedDistinct(s, PresentFlags(FlagOrder(s)));
  }

  /** Flags at strictly increasing positions are distinct. */
  lemma {:induction false} OrderedDistinct(s: string, fs: string)
    requires forall i, j :: 0 <= i < j < |fs| ==> FlagAt(s, fs[i]) < FlagAt(s, fs[j])
    ensures forall i, j :: 0 <= i < j < |fs| ==> fs[i] != fs[j]
  {
    forall i, j | 0 <= i < j < |fs| ensures fs[i] != fs[j] {
      assert FlagAt(s, fs[i]) < FlagAt(s, fs[j]);
    }
  }

  /** The edit is not atomic: when a later flag's value does not parse, the
      fields set before it stay set and the exception still escapes. */
  lemma {:induction false} EditIsNotAtomic(tasks: seq<Task>, ti: int, parts: seq<string>)
    requires 1 <= ti <= |tasks| && |parts| == 4 && parts[2] == "New" && parts[3] == "x"
    ensures ApplyEntries(tasks, ti, [(5, 't'), (12, 'p')], parts, 2)
      == (tasks[ti - 1 := tasks[ti - 1].(name := "New")], Threw(NumberFormat))
  {
    assert ParseInt("x").None? by {
      assert !IsDigit("x"[0]);
    }
    var es: Entries := [(5, 't'), (12, 'p')];
    assert es[1..] == [(12, 'p')];
    assert es[1..][1..] == [];
  }

  // ---------------------------------------------------------------------------
  // editTaskRequirements

  /** Task.removeTaskRequirement(i). Task.java is not part of this model: the
      call is taken to remove the i-th requirement (1-based) the way
      ArrayList.remove(i - 1) does, throwing when i is out of range. */
  function RemoveRequirement(t: Task, i: int): (r: Result<Task>)
    ensures r.Ok? <==> 1 <= i <= |t.requirements|
    ensures r.Ok? ==> r.value == t.(requirements := RemoveAt(t.requirements, i))
  {
    if 1 <= i <= |t.requirements| then Ok(t.(requirements := RemoveAt(t.requirements, i)))
    else Err(IndexOutOfBounds)
  }

  /** The index strings in the order editTaskRequirements removes them: split on
      spaces, sorted as Strings by Arrays.sort, then walked from last to first. */
  function RemovalOrder(indexText: string): seq<string> {
    LexLeIsTotalOrder();
    Reverse(Sort(LexLe, Split(indexText, Literal(" "))))
  }

  /** One pass of editTaskRequirements' removal loop: parse the index string,
      look the task up, remove that requirement. */
  function RemoveStep(tasks: seq<Task>, ti: int, indexText: string): (r: Result<seq<Task>>)
    ensures r.Ok? <==> ParseInt(indexText).Some? && 1 <= ti <= |tasks|
                       && 1 <= ParseInt(indexText).value <= |tasks[ti - 1].requirements|
    ensures r.Ok? ==> r.value == tasks[ti - 1 := tasks[ti - 1].(
      requirements := RemoveAt(tasks[ti - 1].requirements, ParseInt(indexText).value))]
  {
    match ParseInt(indexText)
    case None => Err(NumberFormat)
    case Some(k) =>
      if !(1 <= ti <= |tasks|) then Err(IndexOutOfBounds)
      else match RemoveRequirement(tasks[ti - 1], k)
        case Err(e) => Err(e)
        case Ok(t) => Ok(tasks[ti - 1 := t])
  }

  /** Removes the requirements named by order, in that order; stops at the
      first index that does not parse or does not exist. */
  function RemoveEach(tasks: seq<Task>, ti: int, order: seq<string>): (seq<Task>, Outcome)
    decreases |order|
  {
    if |order| == 0 then (tasks, Done)
    else match RemoveStep(tasks, ti, order[0])
      case Err(e) => (tasks, Threw(e))
      case Ok(next) => RemoveEach(next, ti, order[1..])
  }

  /** The same walk as RemoveEach over the reversed strings, stepping from
      the last string to the first. */
  function RemoveEachBack(tasks: seq<Task>, ti: int, ws: seq<string>): (seq<Task>, Outcome)
    decreases |ws|
  {
    if |ws| == 0 then (tasks, Done)
    else match RemoveStep(tasks, ti, ws[|ws| - 1])
      case Err(e) => (tasks, Threw(e))
      case Ok(next) => RemoveEachBack(next, ti, ws[..|ws| - 1])
  }

  /** Walking the reversed strings from the front is walking the strings
      from the back. */
  lemma {:induction false} RemoveEachReversed(tasks: seq<Task>, ti: int, ws: seq<string>)
    ensures RemoveEach(tasks, ti, Reverse(ws)) == RemoveEachBack(tasks, ti, ws)
    decreases |ws|
  {
    if |ws| > 0 {
      var init := ws[..|ws| - 1];
      ReverseOfInit(ws);
      match RemoveStep(tasks, ti, ws[|ws| - 1])
      case Err(e) =>
      case Ok(next) => RemoveEachReversed(next, ti, init);
    }
  }

  /** One step of the backward walk: a step that throws ends the walk, one
      that succeeds leaves the walk over the strings before it. */
  lemma {:induction false} RemoveBackStep(before: seq<Task>, after: seq<Task>, outcome: Outcome,
                                          ti: int, ws: seq<string>, i: nat)
    requires i < |ws|
    requires var step := RemoveStep(before, ti, ws[i]);
      && (step.Ok? ==> outcome == Done && after == step.value)
      && (step.Err? ==> outcome == Threw(step.e) && after == before)
    ensures outcome.Threw? ==> (after, outcome) == RemoveEachBack(before, ti, ws[..i + 1])
    ensures !outcome.Threw? ==> RemoveEachBack(before, ti, ws[..i + 1]) == RemoveEachBack(after, ti, ws[..i])
  {
    InitOfPrefix(ws, i);
  }

  /** addTaskRequirements: appends reqs to task ti in order; the lookup throws
      when ti is out of range and there is something to add. */
  function AddAll(tasks: seq<Task>, ti: int, reqs: seq<string>): (seq<Task>, Outcome) {
    if |reqs| == 0 then (tasks, Done)
    else if !(1 <= ti <= |tasks|) then (tasks, Threw(IndexOutOfBounds))
    else (tasks[ti - 1 := tasks[ti - 1].(requirements := tasks[ti - 1].requirements + reqs)], Done)
  }

  /** The list and the outcome after editTaskRequirements(ti, updated, haveRemove). */
  function EditRequirementsResult(tasks: seq<Task>, ti: int, updated: seq<string>, haveRemove: bool)
    : (seq<Task>, Outcome)
  {
    if haveRemove then
      if |updated| < 3 then (tasks, Threw(ArrayIndexOutOfBounds))
      else
        var removed := RemoveEach(tasks, ti, RemovalOrder(updated[2]));
        if removed.1.Threw? then removed else AddAll(removed.0, ti, updated[3..])
    else if |updated| > 2 then AddAll(tasks, ti, updated[2..])
    else (tasks, Done)
  }

  /** The values of the index strings that parse. */
  function Parsed(order: seq<string>): set<int> {
    set w | w in order && ParseInt(w).Some? :: ParseInt(w).value
  }

  /** Removing positions from the highest down, one at a time, removes exactly
      those positions from the list as it was: each removal leaves the
      positions below it where they were. */
  lemma {:induction false} RemoveEachDescending(
    tasks: seq<Task>, ti: int, order: seq<string>, base: seq<string>, removed: set<int>)
    requires 1 <= ti <= |tasks|
    requires tasks[ti - 1].requirements == Without(base, removed)
    requires forall k :: 0 <= k < |order| ==> ParseInt(order[k]).Some? && 1 <= ParseInt(order[k]).value <= |base|
    requires forall i, j :: 0 <= i < j < |order| ==> ParseInt(order[i]).value > ParseInt(order[j]).value
    requires forall e, k :: e in removed && 0 <= k < |order| ==> e > ParseInt(order[k]).value
    ensures RemoveEach(tasks, ti, order)
      == (tasks[ti - 1 := tasks[ti - 1].(requirements := Without(base, removed + Parsed(order)))], Done)
    decreases |order|
  {
    if |order| == 0 {
      assert Parsed(order) == {};
      assert removed + Parsed(order) == removed;
      assert tasks[ti - 1].(requirements := tasks[ti - 1].requirements) == tasks[ti - 1];
      assert tasks[ti - 1 := tasks[ti - 1]] == tasks;
    } else {
      var v := ParseInt(order[0]).value;
      RemoveBelowRemoved(base, removed, v);
      var next := tasks[ti - 1 := tasks[ti - 1].(requirements := Without(base, removed + {v}))];
      assert RemoveStep(tasks, ti, order[0]) == Ok(next);
      var rest := order[1..];
      DescendingTail(order, |base|, removed);
      RemoveEachDescending(next, ti, rest, base, removed + {v});
      assert RemoveEach(tasks, ti, order) == RemoveEach(next, ti, rest);
      ParsedFront(order);
      assert removed + {v} + Parsed(rest) == removed + Parsed(order);
      SetRequirementsTwice(tasks, ti, Without(base, removed + {v}), Without(base, removed + Parsed(order)));
    }
  }

  /** The conditions of RemoveEachDescending hold again for the rest of the
      order once its first position is removed. */
  lemma {:induction false} DescendingTail(order: seq<string>, n: nat, removed: set<int>)
    requires |order| > 0
    requires forall k :: 0 <= k < |order| ==> ParseInt(order[k]).Some? && 1 <= ParseInt(order[k]).value <= n
    requires forall i, j :: 0 <= i < j < |order| ==> ParseInt(order[i]).value > ParseInt(order[j]).value
    requires forall e, k :: e in removed && 0 <= k < |order| ==> e > ParseInt(order[k]).value
    ensures var rest, v := order[1..], ParseInt(order[0]).value;
      && (forall k :: 0 <= k < |rest| ==> ParseInt(rest[k]).Some? && 1 <= ParseInt(rest[k]).value <= n)
      && (forall i, j :: 0 <= i < j < |rest| ==> ParseInt(rest[i]).value > ParseInt(rest[j]).value)
      && (forall e, k :: e in removed + {v} && 0 <= k < |rest| ==> e > ParseInt(rest[k]).value)
  {
    var rest := order[1..];
    assert forall k :: 0 <= k < |rest| ==> rest[k] == order[k + 1];
  }

  /** The positions an order names: its first one and those of the rest. */
  lemma {:induction false} ParsedFront(order: seq<string>)
    requires |order| > 0 && ParseInt(order[0]).Some?
    ensures Parsed(order) == {ParseInt(order[0]).value} + Parsed(order[1..])
  {
    assert order == [order[0]] + order[1..];
  }

  /** Setting task ti's requirements twice is setting them to the second. */
  lemma {:induction false} SetRequirementsTwice(tasks: seq<Task>, ti: int, a: seq<string>, b: seq<string>)
    requires 1 <= ti <= |tasks|
    ensures var next := tasks[ti - 1 := tasks[ti - 1].(requirements := a)];
      next[ti - 1 := next[ti - 1].(requirements := b)] == tasks[ti - 1 := tasks[ti - 1].(requirements := b)]
  {
    var next := tasks[ti - 1 := tasks[ti - 1].(requirements := a)];
    assert next[ti - 1].(requirements := b) == tasks[ti - 1].(requirements := b);
  }

  /** Index strings that are all unsigned digit strings of one width, naming
      distinct positions 1..n. */
  ghost predicate UniformIndices(ws: seq<string>, n: nat) {
    && (forall i :: 0 <= i < |ws| ==> |ws[i]| > 0 && |ws[i]| == |ws[0]| && AllDigits(ws[i]))
    && (forall i :: 0 <= i < |ws| ==> 1 <= DigitsValue(ws[i]) <= n)
    && (forall i, j :: 0 <= i < j < |ws| ==> DigitsValue(ws[i]) != DigitsValue(ws[j]))
  }

  /** The positions the index strings name. */
  function IndexValues(ws: seq<string>): set<int> {
    set w | w in ws && AllDigits(w) :: DigitsValue(w)
  }

  /** Each index string of one width parses to its digit value. */
  lemma {:induction false} UniformIndicesParse(ws: seq<string>, n: nat)
    requires n <= MaxInt && UniformIndices(ws, n)
    ensures forall w :: w in ws ==>
      && |w| > 0 && |w| == |ws[0]| && AllDigits(w) && 1 <= DigitsValue(w) <= n
      && ParseInt(w) == Some(DigitsValue(w))
  {
    forall w | w in ws
      ensures |w| > 0 && |w| == |ws[0]| && AllDigits(w) && 1 <= DigitsValue(w) <= n
      ensures ParseInt(w) == Some(DigitsValue(w))
    {
      var i :| 0 <= i < |ws| && ws[i] == w;
      ParseIntOfDigits(w);
    }
  }

  /** The removal order holds the same strings, each once. */
  lemma {:induction false} RemovalOrderMembers(ws: seq<string>, n: nat)
    requires UniformIndices(ws, n)
    ensures TotalOrder(LexLe)
    ensures var order := Reverse(Sort(LexLe, ws));
      && (forall w :: w in order <==> w in ws)
      && (forall i, j :: 0 <= i < j < |order| ==> order[i] != order[j])
  {
    LexLeIsTotalOrder();
    var q := Sort(LexLe, ws);
    var order := Reverse(q);
    ReverseSameMultiset(q);
    SameMembers(order, ws);
    DistinctStrings(ws, n);
    DistinctPermutation(ws, order);
  }

  /** Index strings naming distinct positions are distinct strings. */
  lemma {:induction false} DistinctStrings(ws: seq<string>, n: nat)
    requires UniformIndices(ws, n)
    ensures forall a, b :: 0 <= a < b < |ws| ==> ws[a] != ws[b]
  {
  }

  /** Index strings of one width, sorted as strings and reversed, name their
      positions from the highest down. */
  lemma {:induction false} SortedIndicesDescend(ws: seq<string>, n: nat)
    requires n <= MaxInt && UniformIndices(ws, n)
    ensures TotalOrder(LexLe)
    ensures var order := Reverse(Sort(LexLe, ws));
      && (forall k :: 0 <= k < |order| ==> ParseInt(order[k]).Some? && 1 <= ParseInt(order[k]).value <= n)
      && (forall i, j :: 0 <= i < j < |order| ==> ParseInt(order[i]).value > ParseInt(order[j]).value)
      && Parsed(order) == IndexValues(ws)
  {
    LexLeIsTotalOrder();
    var q := Sort(LexLe, ws);
    var order := Reverse(q);
    RemovalOrderMembers(ws, n);
    assert Reverse(Sort(LexLe, ws)) == order;
    assert forall w :: w in order <==> w in ws;
    assert forall i, j :: 0 <= i < j < |order| ==> order[i] != order[j];
    forall i, j | 0 <= i < j < |order| ensures LexLe(order[j], order[i]) {
      ReversedSortedPair(LexLe, q, i, j);
    }
    DescendingIndexStrings(ws, n, order);
  }

  /** Distinct index strings of one width, listed from the greatest down in
      the string order, are listed from the highest position down. */
  lemma {:induction false} DescendingIndexStrings(ws: seq<string>, n: nat, order: seq<string>)
    requires n <= MaxInt && UniformIndices(ws, n)
    requires forall w :: w in order <==> w in ws
    requires forall i, j :: 0 <= i < j < |order| ==> order[i] != order[j]
    requires forall i, j :: 0 <= i < j < |order| ==> LexLe(order[j], order[i])
    ensures forall k :: 0 <= k < |order| ==> ParseInt(order[k]).Some? && 1 <= ParseInt(order[k]).value <= n
    ensures forall i, j :: 0 <= i < j < |order| ==> ParseInt(order[i]).value > ParseInt(order[j]).value
    ensures Parsed(order) == IndexValues(ws)
  {
    UniformIndicesParse(ws, n);
    assert forall k :: 0 <= k < |order| ==> order[k] in ws;
    forall i, j | 0 <= i < j < |order|
      ensures ParseInt(order[i]).value > ParseInt(order[j]).value
    {
      LaterIsLower(order[i], order[j]);
    }
  }

  /** Of two different digit strings of one width, the one the string order
      puts later parses to the larger number. */
  lemma {:induction false} LaterIsLower(x: string, y: string)
    requires AllDigits(x) && AllDigits(y) && |x| == |y| && x != y
    requires ParseInt(x) == Some(DigitsValue(x)) && ParseInt(y) == Some(DigitsValue(y))
    requires LexLe(y, x)
    ensures ParseInt(x).value > ParseInt(y).value
  {
    LexLeIsNumericForEqualLength(y, x);
    if DigitsValue(x) == DigitsValue(y) {
      LexLeIsNumericForEqualLength(x, y);
      LexLeAntisymmetric(x, y);
    }
  }

  /** With index strings of one width (say "3 1 2", but not "9 10"), the string
      sort is the numeric sort, so the removal walks the positions from the
      highest down. */
  lemma {:induction false} RemovalOrderDescends(indexText: string, n: nat)
    requires n <= MaxInt
    requires UniformIndices(Split(indexText, Literal(" ")), n)
    ensures var order := RemovalOrder(indexText);
      && (forall k :: 0 <= k < |order| ==> ParseInt(order[k]).Some? && 1 <= ParseInt(order[k]).value <= n)
      && (forall i, j :: 0 <= i < j < |order| ==> ParseInt(order[i]).value > ParseInt(order[j]).value)
      && Parsed(order) == IndexValues(Split(indexText, Literal(" ")))
  {
    var ws := Split(indexText, Literal(" "));
    SortedIndicesDescend(ws, n);
    assert RemovalOrder(indexText) == Reverse(Sort(LexLe, ws));
  }

  /** The removal loop alone, under the same conditions as below. */
  lemma {:induction false} RemovalRemovesListed(tasks: seq<Task>, ti: int, indexText: string)
    requires 1 <= ti <= |tasks|
    requires |tasks[ti - 1].requirements| <= MaxInt
    requires UniformIndices(Split(indexText, Literal(" ")), |tasks[ti - 1].requirements|)
    ensures var reqs := tasks[ti - 1].requirements;
      var gone := IndexValues(Split(indexText, Literal(" ")));
      RemoveEach(tasks, ti, RemovalOrder(indexText))
        == (tasks[ti - 1 := tasks[ti - 1].(requirements := Without(reqs, gone))], Done)
  {
    var reqs := tasks[ti - 1].requirements;
    RemovalOrderDescends(indexText, |reqs|);
    WithoutNothing(reqs);
    RemoveEachDescending(tasks, ti, RemovalOrder(indexText), reqs, {});
    assert {} + Parsed(RemovalOrder(indexText)) == Parsed(RemovalOrder(indexText));
  }

  /** editTaskRequirements with removal, when the index strings are of one
      width, name distinct existing requirements and the task exists: exactly
      the named requirements go, the rest keep their order, and the new ones
      follow them. */
  lemma {:induction false} EditRequirementsRemovesListed(tasks: seq<Task>, ti: int, updated: seq<string>)
    requires 1 <= ti <= |tasks| && |updated| >= 3
    requires |tasks[ti - 1].requirements| <= MaxInt
    requires UniformIndices(Split(updated[2], Literal(" ")), |tasks[ti - 1].requirements|)
    ensures var reqs := tasks[ti - 1].requirements;
      var gone := IndexValues(Split(updated[2], Literal(" ")));
      EditRequirementsResult(tasks, ti, updated, true)
        == (tasks[ti - 1 := tasks[ti - 1].(requirements := Without(reqs, gone) + updated[3..])], Done)
  {
    var reqs := tasks[ti - 1].requirements;
    var kept := Without(reqs, IndexValues(Split(updated[2], Literal(" "))));
    RemovalRemovesListed(tasks, ti, updated[2]);
    var mid := tasks[ti - 1 := tasks[ti - 1].(requirements := kept)];
    assert EditRequirementsResult(tasks, ti, updated, true) == AddAll(mid, ti, updated[3..]);
    if |updated| == 3 {
      assert kept + updated[3..] == kept;
    } else {
      assert mid[ti - 1 := mid[ti - 1].(requirements := mid[ti - 1].requirements + updated[3..])]
          == tasks[ti - 1 := tasks[ti - 1].(requirements := kept + updated[3..])];
    }
  }

  /** The index strings "9 10" on a task with eleven or more requirements: the
      string sort puts "10" first, so requirement 9 goes first and the second
      removal then takes the requirement that was 11th, while the 10th stays. */
  lemma {:induction false} NineTenRemovesNinthAndEleventh(tasks: seq<Task>, ti: int, updated: seq<string>)
    requires 1 <= ti <= |tasks| && |tasks[ti - 1].requirements| >= 11
    requires |updated| == 3 && updated[2] == "9 10"
    ensures var reqs := tasks[ti - 1].requirements;
      EditRequirementsResult(tasks, ti, updated, true)
        == (tasks[ti - 1 := tasks[ti - 1].(requirements := reqs[..8] + [reqs[9]] + reqs[11..])], Done)
  {
    var reqs := tasks[ti - 1].requirements;
    var removed := tasks[ti - 1 := tasks[ti - 1].(requirements := RemoveAt(RemoveAt(reqs, 9), 10))];
    NineTenOrder();
    NinthThenTenth(reqs);
    NineTenSteps(tasks, ti);
    RemovalThenAdd(tasks, ti, updated, removed);
    assert updated[3..] == [];
    assert AddAll(removed, ti, []) == (removed, Done);
  }

  /** With haveRemove, once the removal loop completes, editTaskRequirements
      adds the entries from 3 on. */
  lemma {:induction false} RemovalThenAdd(tasks: seq<Task>, ti: int, updated: seq<string>, removed: seq<Task>)
    requires |updated| >= 3 && RemoveEach(tasks, ti, RemovalOrder(updated[2])) == (removed, Done)
    ensures EditRequirementsResult(tasks, ti, updated, true) == AddAll(removed, ti, updated[3..])
  {
  }

  /** "9 10" is removed in the order "9", "10". */
  lemma {:induction false} NineTenOrder()
    ensures RemovalOrder("9 10") == ["9", "10"]
  {
    NineTenSplit();
    StringSortIsNotNumeric();
    ReverseTwo("10", "9");
  }

  lemma {:induction false} ParseNineTen()
    ensures ParseInt("9") == Some(9) && ParseInt("10") == Some(10)
  {
    assert AllDigits("9") && DigitsValue("9") == 9 by {
      assert "9"[..0] == "";
    }
    ParseIntOfDigits("9");
    assert AllDigits("10") && DigitsValue("10") == 10 by {
      assert "10"[..1] == "1" && "1"[..0] == "";
    }
    ParseIntOfDigits("10");
  }

  lemma {:induction false} NineTenSplit()
    ensures Split("9 10", Literal(" ")) == ["9", "10"]
  {
    var text := "9 10";
    assert FirstMatch(text, Literal(" "), 0) == 1 by {
      assert MatchesAt(text, Literal(" "), 1);
      assert text[0..1] == "9";
    }
    assert FirstMatch("10", Literal(" "), 0) == -1 by {
      assert !MatchesAt("10", Literal(" "), 0);
      assert !MatchesAt("10", Literal(" "), 1);
    }
    assert text[..1] == "9" && text[2..] == "10";
  }

  /** Removing the 9th and then the 10th requirement drops the original 9th
      and 11th. */
  lemma {:induction false} NinthThenTenth(reqs: seq<string>)
    requires |reqs| >= 11
    ensures RemoveAt(RemoveAt(reqs, 9), 10) == reqs[..8] + [reqs[9]] + reqs[11..]
  {
  }

  /** The removal loop over "9", "10" removes the 9th and then the 10th
      requirement of task ti. */
  lemma {:induction false} NineTenSteps(tasks: seq<Task>, ti: int)
    requires 1 <= ti <= |tasks| && |tasks[ti - 1].requirements| >= 11
    ensures var reqs := tasks[ti - 1].requirements;
      RemoveEach(tasks, ti, ["9", "10"])
        == (tasks[ti - 1 := tasks[ti - 1].(requirements := RemoveAt(RemoveAt(reqs, 9), 10))], Done)
  {
    ParseNineTen();
    var reqs := tasks[ti - 1].requirements;
    var t1 := tasks[ti - 1 := tasks[ti - 1].(requirements := RemoveAt(reqs, 9))];
    var t2 := t1[ti - 1 := t1[ti - 1].(requirements := RemoveAt(t1[ti - 1].requirements, 10))];
    var order := ["9", "10"];
    assert order[1..] == ["10"] && order[1..][1..] == [];
    assert RemoveStep(tasks, ti, "9") == Ok(t1);
    assert RemoveStep(t1, ti, "10") == Ok(t2);
    assert RemoveEach(tasks, ti, order) == RemoveEach(t1, ti, ["10"]);
    assert RemoveEach(t1, ti, ["10"]) == RemoveEach(t2, ti, []);
    var last := tasks[ti - 1].(requirements := RemoveAt(RemoveAt(reqs, 9), 10));
    assert t1[ti - 1] == tasks[ti - 1].(requirements := RemoveAt(reqs, 9));
    assert t1[ti - 1].(requirements := RemoveAt(t1[ti - 1].requirements, 10)) == last;
    assert t2 == tasks[ti - 1 := last];
  }

  // ---------------------------------------------------------------------------
  // The list

  class TaskList {
    var tasks: seq<Task>

    constructor ()
      ensures tasks == []
    {
      tasks := [];
    }

    /** addTask: appends. */
    method AddTask(task: Task)
      modifies this
      ensures tasks == old(tasks) + [task]
    {
      tasks := tasks + [task];
    }

    /** removeTask: removes the task at 1-based position i; ArrayList.remove
        throws outside 1..size and leaves the list as it was. */
    method RemoveTask(taskIndexNumber: int) returns (outcome: Outcome)
      modifies this
      ensures 1 <= taskIndexNumber <= |old(tasks)| ==>
        outcome == Done && tasks == RemoveAt(old(tasks), taskIndexNumber)
      ensures !(1 <= taskIndexNumber <= |old(tasks)|) ==>
        outcome == Threw(IndexOutOfBounds) && tasks == old(tasks)
    {
      if 1 <= taskIndexNumber <= |tasks| {
        tasks := tasks[..taskIndexNumber - 1] + tasks[taskIndexNumber..];
        outcome := Done;
      } else {
        outcome := Threw(IndexOutOfBounds);
      }
    }

    /** getTask: the task at 1-based position i. */
    method GetTask(taskIndex: int) returns (r: Result<Task>)
      ensures 1 <= taskIndex <= |tasks| ==> r == Ok(tasks[taskIndex - 1])
      ensures !(1 <= taskIndex <= |tasks|) ==> r == Err(IndexOutOfBounds)
    {
      if 1 <= taskIndex <= |tasks| {
        r := Ok(tasks[taskIndex - 1]);
      } else {
        r := Err(IndexOutOfBounds);
      }
    }

    /** getSize. */
    function GetSize(): (n: nat)
      reads this
      ensures n == |tasks|
    {
      |tasks|
    }

    /** editTask(details): splits the command on " [itpdcs]/", reads the task
        index from segment 1, orders the flags by where they occur and sets one
        field per present flag, field by field. */
    method EditTask(updatedTaskDetails: string) returns (outcome: Outcome)
      modifies this
      ensures (tasks, outcome) == EditTaskResult(old(tasks), updatedTaskDetails)
    {
      var parts := Split(updatedTaskDetails, EditMarker);
      if |parts| < 2 {
        return Threw(ArrayIndexOutOfBounds);
      }
      var parsed := ParseInt(parts[1]);
      if parsed.None? {
        return Threw(NumberFormat);
      }
      var taskIndex := parsed.value;
      var orderOfInputs: Entries := [];
      orderOfInputs := Put(orderOfInputs, IndexOf(updatedTaskDetails, " t/"), 't');
      orderOfInputs := Put(orderOfInputs, IndexOf(updatedTaskDetails, " p/"), 'p');
      orderOfInputs := Put(orderOfInputs, IndexOf(updatedTaskDetails, " d/"), 'd');
      orderOfInputs := Put(orderOfInputs, IndexOf(updatedTaskDetails, " c/"), 'c');
      orderOfInputs := Put(orderOfInputs, IndexOf(updatedTaskDetails, " s/"), 's');
      assert orderOfInputs == FlagOrder(updatedTaskDetails);
      outcome := ApplyInOrder(taskIndex, orderOfInputs, parts);
    }

    /** The loop of editTask over the TreeMap's entries, from segment 2 on. */
    method ApplyInOrder(taskIndex: int, orderOfInputs: Entries, parts: seq<string>) returns (outcome: Outcome)
      modifies this
      ensures (tasks, outcome) == ApplyEntries(old(tasks), taskIndex, orderOfInputs, parts, 2)
    {
      var currentIndex := 2;
      var i := 0;
      while i < |orderOfInputs|
        invariant 0 <= i <= |orderOfInputs|
        invariant currentIndex >= 2
        invariant ApplyEntries(old(tasks), taskIndex, orderOfInputs, parts, 2)
          == ApplyEntries(tasks, taskIndex, orderOfInputs[i..], parts, currentIndex)
      {
        EntriesFrom(tasks, taskIndex, orderOfInputs, i, parts, currentIndex);
        var (key, flag) := orderOfInputs[i];
        if key != -1 {
          var o := SetField(taskIndex, flag, parts, currentIndex);
          if o.Threw? {
            return o;
          }
          currentIndex := currentIndex + 1;
        }
        i := i + 1;
      }
      return Done;
    }

    /** The body of editTask's switch for one flag. */
    method SetField(taskIndex: int, flag: char, parts: seq<string>, currentIndex: nat) returns (outcome: Outcome)
      modifies this
      ensures ApplyFlag(old(tasks), taskIndex, flag, parts, currentIndex).Ok? ==>
        outcome == Done && tasks == ApplyFlag(old(tasks), taskIndex, flag, parts, currentIndex).value
      ensures ApplyFlag(old(tasks), taskIndex, flag, parts, currentIndex).Err? ==>
        outcome == Threw(ApplyFlag(old(tasks), taskIndex, flag, parts, currentIndex).e) && tasks == old(tasks)
    {
      outcome := Done;
      var inRange := 1 <= taskIndex <= |tasks|;
      match flag
      case 't' =>
        if !inRange { return Threw(IndexOutOfBounds); }
        if currentIndex >= |parts| { return Threw(ArrayIndexOutOfBounds); }
        tasks := tasks[taskIndex - 1 := tasks[taskIndex - 1].(name := parts[currentIndex])];
      case 'p' =>
        if currentIndex >= |parts| { return Threw(ArrayIndexOutOfBounds); }
        var newTaskPriority := ParseInt(parts[currentIndex]);
        if newTaskPriority.None? { return Threw(NumberFormat); }
        if !inRange { return Threw(IndexOutOfBounds); }
        tasks := tasks[taskIndex - 1 := tasks[taskIndex - 1].(priority := newTaskPriority.value)];
      case 'd' =>
        if !inRange { return Threw(IndexOutOfBounds); }
        if currentIndex >= |parts| { return Threw(ArrayIndexOutOfBounds); }
        tasks := tasks[taskIndex - 1 := tasks[taskIndex - 1].(dueDate := parts[currentIndex])];
      case 'c' =>
        if currentIndex >= |parts| { return Threw(ArrayIndexOutOfBounds); }
        var newTaskCredit := ParseInt(parts[currentIndex]);
        if newTaskCredit.None? { return Threw(NumberFormat); }
        if !inRange { return Threw(IndexOutOfBounds); }
        tasks := tasks[taskIndex - 1 := tasks[taskIndex - 1].(credit := newTaskCredit.value)];
      case 's' =>
        if !inRange { return Threw(IndexOutOfBounds); }
        if currentIndex >= |parts| { return Threw(ArrayIndexOutOfBounds); }
        tasks := tasks[taskIndex - 1 := tasks[taskIndex - 1].(state := parts[currentIndex])];
      case _ =>
    }

    /** editTaskRequirements(ti, updated, haveRemove): with haveRemove, removes
        the requirements whose indices updated[2] lists, last sorted string
        first, then appends updated[3..]; otherwise appends updated[2..]. */
    method EditTaskRequirements(taskIndexNumber: int, updatedTaskRequirements: seq<string>, haveRemove: bool)
      returns (outcome: Outcome)
      modifies this
      ensures (tasks, outcome)
        == EditRequirementsResult(old(tasks), taskIndexNumber, updatedTaskRequirements, haveRemove)
    {
      if haveRemove {
        if |updatedTaskRequirements| < 3 {
          return Threw(ArrayIndexOutOfBounds);
        }
        var indexesToBeRemoved := Split(updatedTaskRequirements[2], Literal(" "));
        LexLeIsTotalOrder();
        indexesToBeRemoved := Sort(LexLe, indexesToBeRemoved);
        outcome := RemoveTaskRequirements(taskIndexNumber, indexesToBeRemoved);
        if outcome.Threw? {
          return;
        }
        outcome := AddTaskRequirements(taskIndexNumber, updatedTaskRequirements, 3);
      } else if |updatedTaskRequirements| > 2 {
        outcome := AddTaskRequirements(taskIndexNumber, updatedTaskRequirements, 2);
      } else {
        outcome := Done;
      }
    }

    /** The removal loop: walks the sorted index strings from last to first. */
    method RemoveTaskRequirements(taskIndexNumber: int, indexesToBeRemoved: seq<string>) returns (outcome: Outcome)
      modifies this
      ensures (tasks, outcome) == RemoveEach(old(tasks), taskIndexNumber, Reverse(indexesToBeRemoved))
    {
      RemoveEachReversed(tasks, taskIndexNumber, indexesToBeRemoved);
      var n := |indexesToBeRemoved|;
      var i := n - 1;
      assert indexesToBeRemoved[..n] == indexesToBeRemoved;
      while i >= 0
        invariant -1 <= i < n
        invariant RemoveEachBack(old(tasks), taskIndexNumber, indexesToBeRemoved)
          == RemoveEachBack(tasks, taskIndexNumber, indexesToBeRemoved[..i + 1])
      {
        ghost var before := tasks;
        outcome := RemoveTaskRequirement(taskIndexNumber, indexesToBeRemoved[i]);
        RemoveBackStep(before, tasks, outcome, taskIndexNumber, indexesToBeRemoved, i);
        if outcome.Threw? {
          return;
        }
        i := i - 1;
      }
      assert indexesToBeRemoved[..0] == [];
      outcome := Done;
    }

    /** The body of the removal loop: parses one index string and removes that
        requirement from task ti. */
    method RemoveTaskRequirement(taskIndexNumber: int, indexText: string) returns (outcome: Outcome)
      modifies this
      ensures RemoveStep(old(tasks), taskIndexNumber, indexText).Ok? ==>
        outcome == Done && tasks == RemoveStep(old(tasks), taskIndexNumber, indexText).value
      ensures RemoveStep(old(tasks), taskIndexNumber, indexText).Err? ==>
        outcome == Threw(RemoveStep(old(tasks), taskIndexNumber, indexText).e) && tasks == old(tasks)
    {
      var indexToBeRemoved := ParseInt(indexText);
      if indexToBeRemoved.None? {
        return Threw(NumberFormat);
      }
      if !(1 <= taskIndexNumber <= |tasks|) {
        return Threw(IndexOutOfBounds);
      }
      var t := RemoveRequirement(tasks[taskIndexNumber - 1], indexToBeRemoved.value);
      if t.Err? {
        return Threw(t.e);
      }
      tasks := tasks[taskIndexNumber - 1 := t.value];
      return Done;
    }

    /** addTaskRequirements: appends updated[first..] to task ti, one at a time. */
    method AddTaskRequirements(taskIndexNumber: int, updatedTaskRequirements: seq<string>, first: nat)
      returns (outcome: Outcome)
      requires first <= |updatedTaskRequirements|
      modifies this
      ensures (tasks, outcome) == AddAll(old(tasks), taskIndexNumber, updatedTaskRequirements[first..])
    {
      var i := first;
      while i < |updatedTaskRequirements|
        invariant first <= i <= |updatedTaskRequirements|
        invariant i == first ==> tasks == old(tasks)
        invariant i > first ==> 1 <= taskIndexNumber <= |old(tasks)| && tasks == old(tasks)[taskIndexNumber - 1 :=
          old(tasks)[taskIndexNumber - 1].(requirements :=
            old(tasks)[taskIndexNumber - 1].requirements + updatedTaskRequirements[first..i])]
      {
        if !(1 <= taskIndexNumber <= |tasks|) {
          return Threw(IndexOutOfBounds);
        }
        var t := tasks[taskIndexNumber - 1];
        ghost var before := old(tasks)[taskIndexNumber - 1].requirements;
        assert updatedTaskRequirements[first..i + 1] == updatedTaskRequirements[first..i] + [updatedTaskRequirements[i]];
        assert t.requirements + [updatedTaskRequirements[i]] == before + updatedTaskRequirements[first..i + 1];
        tasks := tasks[taskIndexNumber - 1 := t.(requirements := t.requirements + [updatedTaskRequirements[i]])];
        i := i + 1;
      }
      assert updatedTaskRequirements[first..i] == updatedTaskRequirements[first..];
      outcome := Done;
    }
  }
}
