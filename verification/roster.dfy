/** The class detail endpoint's roster reconciliation.  A request carries four
    lists of usernames (mentors to add, members to add, mentors to remove,
    members to remove); each non-empty list is handled in that order by
    resolving the caller, passing the mentor gate, resolving every listed name,
    and adding (removing) exactly the names whose presence would change.  The
    four steps are not atomic: a failing step leaves earlier ones applied, and
    each step sees the rosters as the earlier steps left them. */
module Roster {
  import opened Store

  /** The gate as the handler loops over it: any mentor whose username differs
      from the caller's refuses the request. */
  predicate MentorGate(mentors: seq<string>, caller: string)
    decreases |mentors|
  {
    |mentors| == 0 || (mentors[0] == caller && MentorGate(mentors[1..], caller))
  }

  /** The gate passes exactly when every mentor is the caller. */
  lemma {:induction false} MentorGateIffAllCaller(mentors: seq<string>, caller: string)
    ensures MentorGate(mentors, caller) <==> forall i :: 0 <= i < |mentors| ==> mentors[i] == caller
    decreases |mentors|
  {
    if |mentors| > 0 {
      MentorGateIffAllCaller(mentors[1..], caller);
      assert forall i :: 1 <= i < |mentors| ==> mentors[i] == mentors[1..][i - 1];
    }
  }

  /** A class without mentors admits any authenticated caller. */
  lemma NoMentorsAdmitsAnyone(caller: string)
    ensures MentorGate([], caller)
  {
  }

  /** A class with two different mentors refuses everybody, its mentors included. */
  lemma TwoMentorsRefuseEveryone(mentors: seq<string>, caller: string, i: nat, j: nat)
    requires i < |mentors| && j < |mentors| && mentors[i] != mentors[j]
    ensures !MentorGate(mentors, caller)
  {
    MentorGateIffAllCaller(mentors, caller);
  }

  /** When the class has a mentor, passing the gate makes the caller one of them. */
  lemma GateAdmitsOnlyMentors(mentors: seq<string>, caller: string)
    requires |mentors| > 0 && MentorGate(mentors, caller)
    ensures caller in mentors
  {
  }

  /** The requested names whose presence on the roster is `present`, in
      request order and with repeats kept: for an addition (`present` false)
      the names not yet on the roster, for a removal the names on it. */
  function Selected(roster: seq<string>, requested: seq<string>, present: bool): (r: seq<string>)
    ensures forall x :: multiset(r)[x] == if (x in roster) == present then multiset(requested)[x] else 0
    ensures |r| <= |requested|
    decreases |requested|
  {
    if |requested| == 0 then []
    else
      var rest := Selected(roster, requested[1..], present);
      assert requested == [requested[0]] + requested[1..];
      if (requested[0] in roster) == present then [requested[0]] + rest else rest
  }

  /** `f` is the NotFound answer for the first name that belongs to no account. */
  predicate FirstUnknown(names: seq<string>, users: seq<User>, f: Failure) {
    exists k :: 0 <= k < |names| && f == NotFound(names[k]) && UserByUsername(users, names[k]).None?
                && forall j :: 0 <= j < k ==> UserByUsername(users, names[j]).Some?
  }

  /** Every listed name belongs to an account. */
  predicate AllKnown(names: seq<string>, users: seq<User>) {
    forall i :: 0 <= i < |names| ==> UserByUsername(users, names[i]).Some?
  }

  lemma AllKnownCons(names: seq<string>, users: seq<User>)
    requires |names| > 0
    ensures AllKnown(names, users) <==> UserByUsername(users, names[0]).Some? && AllKnown(names[1..], users)
  {
    assert forall i :: 1 <= i < |names| ==> names[i] == names[1..][i - 1];
  }

  /** The handler's loop over the requested names: each is looked up (the first
      unknown one answers NotFound) and kept when its roster presence is the
      wanted one. */
  function Select(roster: seq<string>, requested: seq<string>, users: seq<User>, present: bool)
    : (r: Result<seq<string>>)
    ensures r.Ok? <==> AllKnown(requested, users)
    ensures r.Err? ==> FirstUnknown(requested, users, r.failure)
    ensures r.Ok? ==> r.value == Selected(roster, requested, present)
    ensures r.Ok? ==> forall x :: multiset(r.value)[x] ==
                        if (x in roster) == present then multiset(requested)[x] else 0
    decreases |requested|
  {
    if |requested| == 0 then Ok([])
    else
      var name := requested[0];
      AllKnownCons(requested, users);
      match UserByUsername(users, name)
      case None => Err(NotFound(name))
      case Some(u) =>
        var rest := Select(roster, requested[1..], users, present);
        if rest.Err? then
          ShiftFirstUnknown(requested, users, rest.failure);
          rest
        else if (u.username in roster) == present then Ok([u.username] + rest.value)
        else Ok(rest.value)
  }

  /** The first unknown name of the tail is the first unknown name of the whole
      list when the head is known. */
  lemma ShiftFirstUnknown(names: seq<string>, users: seq<User>, f: Failure)
    requires |names| > 0 && UserByUsername(users, names[0]).Some?
    requires FirstUnknown(names[1..], users, f)
    ensures FirstUnknown(names, users, f)
  {
    var k :| 0 <= k < |names| - 1 && f == NotFound(names[1..][k]) && UserByUsername(users, names[1..][k]).None?
             && forall j :: 0 <= j < k ==> UserByUsername(users, names[1..][j]).Some?;
    assert names[k + 1] == names[1..][k];
    forall j | 0 <= j < k + 1
      ensures UserByUsername(users, names[j]).Some?
    {
      if j > 0 {
        assert names[j] == names[1..][j - 1];
      }
    }
  }

  /** The roster left after removing every occurrence of the given names. */
  function RemoveAll(roster: seq<string>, gone: seq<string>): (r: seq<string>)
    ensures forall x :: multiset(r)[x] == if x in gone then 0 else multiset(roster)[x]
    ensures |r| <= |roster|
    decreases |roster|
  {
    if |roster| == 0 then []
    else
      var rest := RemoveAll(roster[1..], gone);
      assert roster == [roster[0]] + roster[1..];
      if roster[0] in gone then rest else [roster[0]] + rest
  }

  /** Adding the same names a second time changes nothing. */
  lemma AddIsIdempotent(roster: seq<string>, requested: seq<string>, users: seq<User>, added: seq<string>)
    requires Select(roster, requested, users, false) == Ok(added)
    ensures Select(roster + added, requested, users, false) == Ok([])
  {
    var again := Select(roster + added, requested, users, false);
    assert again.Ok?;
    forall x | x in requested
      ensures x in roster + added
    {
      if x !in roster {
        assert multiset(added)[x] > 0;
      }
    }
    assert forall x :: multiset(again.value)[x] == 0;
  }

  /** Removing the same names a second time changes nothing. */
  lemma RemoveIsIdempotent(roster: seq<string>, requested: seq<string>, users: seq<User>, removed: seq<string>)
    requires Select(roster, requested, users, true) == Ok(removed)
    ensures Select(RemoveAll(roster, removed), requested, users, true) == Ok([])
  {
    var left := RemoveAll(roster, removed);
    var again := Select(left, requested, users, true);
    assert again.Ok?;
    forall x | x in requested
      ensures x !in left
    {
      if x in roster {
        assert multiset(removed)[x] > 0;
      }
      assert multiset(left)[x] == 0;
    }
    assert forall x :: multiset(again.value)[x] == 0;
  }

  /** Names already on the roster are no-ops for an addition, and names absent
      from it are no-ops for a removal. */
  lemma UnchangedNamesAreNoOps(roster: seq<string>, requested: seq<string>, users: seq<User>)
    requires forall i :: 0 <= i < |requested| ==> UserByUsername(users, requested[i]).Some?
    ensures (forall i :: 0 <= i < |requested| ==> requested[i] in roster) ==>
              Select(roster, requested, users, false) == Ok([])
    ensures (forall i :: 0 <= i < |requested| ==> requested[i] !in roster) ==>
              Select(roster, requested, users, true) == Ok([]) && RemoveAll(roster, []) == roster
  {
    assert AllKnown(requested, users);
    if forall i :: 0 <= i < |requested| ==> requested[i] in roster {
      NoneSelected(roster, requested, false);
    }
    if forall i :: 0 <= i < |requested| ==> requested[i] !in roster {
      NoneSelected(roster, requested, true);
      RemoveNothing(roster);
    }
  }

  /** Nothing is selected when no requested name has the wanted presence. */
  lemma NoneSelected(roster: seq<string>, requested: seq<string>, present: bool)
    requires forall i :: 0 <= i < |requested| ==> (requested[i] in roster) != present
    ensures Selected(roster, requested, present) == []
  {
  }

  /** When no requested name is on the roster, an addition appends the request
      itself: every name, in order, repeats included. */
  lemma {:induction false} FreshNamesAppendedInOrder(roster: seq<string>, requested: seq<string>, users: seq<User>)
    requires forall i :: 0 <= i < |requested| ==> UserByUsername(users, requested[i]).Some?
    requires forall i :: 0 <= i < |requested| ==> requested[i] !in roster
    ensures Select(roster, requested, users, false) == Ok(requested)
    decreases |requested|
  {
    if |requested| > 0 {
      FreshNamesAppendedInOrder(roster, requested[1..], users);
      assert requested == [requested[0]] + requested[1..];
    }
  }

  lemma {:induction false} RemoveNothing(roster: seq<string>)
    ensures RemoveAll(roster, []) == roster
    decreases |roster|
  {
    if |roster| > 0 {
      RemoveNothing(roster[1..]);
    }
  }

  datatype Request = Request(
    addMentor: seq<string>,
    addMember: seq<string>,
    deleteMentor: seq<string>,
    deleteMember: seq<string>)

  datatype Step = AddMentor | AddMember | DeleteMentor | DeleteMember

  /** The answer of the detail endpoint, with the class as it stands once the
      handler returns (every completed step is already persisted). */
  datatype Reply =
    | ClassMissing
    | Shown(cls: Class)
    | Stopped(failure: Failure, cls: Class)

  function Names(req: Request, step: Step): seq<string> {
    match step
    case AddMentor => req.addMentor
    case AddMember => req.addMember
    case DeleteMentor => req.deleteMentor
    case DeleteMember => req.deleteMember
  }

  /** An addition's effect on a roster: the old roster, then the requested
      names not on it, in request order and with repeats kept. */
  ghost predicate Appended(before: seq<string>, names: seq<string>, after: seq<string>) {
    && after == before + Selected(before, names, false)
    && forall x :: multiset(after)[x] == multiset(before)[x] + (if x in before then 0 else multiset(names)[x])
  }

  /** A removal's effect on a roster: every occurrence of a requested name is
      gone and every other name stays, in order. */
  ghost predicate Removed(before: seq<string>, names: seq<string>, after: seq<string>) {
    && after == RemoveAll(before, names)
    && forall x :: multiset(after)[x] == if x in names then 0 else multiset(before)[x]
  }

  /** Removing only the requested names that are on the roster removes the same
      as removing all of them. */
  lemma RemoveSelected(roster: seq<string>, names: seq<string>)
    ensures Removed(roster, names, RemoveAll(roster, Selected(roster, names, true)))
  {
    var sel := Selected(roster, names, true);
    forall i | 0 <= i < |roster|
      ensures roster[i] in sel <==> roster[i] in names
    {
      assert multiset(sel)[roster[i]] == multiset(names)[roster[i]];
    }
    RemoveAllAgree(roster, sel, names);
  }

  lemma {:induction false} RemoveAllAgree(roster: seq<string>, g1: seq<string>, g2: seq<string>)
    requires forall i :: 0 <= i < |roster| ==> (roster[i] in g1 <==> roster[i] in g2)
    ensures RemoveAll(roster, g1) == RemoveAll(roster, g2)
    decreases |roster|
  {
    if |roster| > 0 {
      assert forall i :: 0 <= i < |roster| - 1 ==> roster[1..][i] == roster[i + 1];
      RemoveAllAgree(roster[1..], g1, g2);
    }
  }

  /** An addition step's work on one roster: resolve the names, append those
      not yet on it. */
  function AddTo(roster: seq<string>, names: seq<string>, users: seq<User>): (r: Result<seq<string>>)
    ensures r.Ok? <==> forall i :: 0 <= i < |names| ==> UserByUsername(users, names[i]).Some?
    ensures r.Err? ==> FirstUnknown(names, users, r.failure)
    ensures r.Ok? ==> Appended(roster, names, r.value)
  {
    match Select(roster, names, users, false)
    case Err(e) => Err(e)
    case Ok(d) => Ok(roster + d)
  }

  /** A removal step's work on one roster: resolve the names, remove those on it. */
  function RemoveFrom(roster: seq<string>, names: seq<string>, users: seq<User>): (r: Result<seq<string>>)
    ensures r.Ok? <==> forall i :: 0 <= i < |names| ==> UserByUsername(users, names[i]).Some?
    ensures r.Err? ==> FirstUnknown(names, users, r.failure)
    ensures r.Ok? ==> Removed(roster, names, r.value)
  {
    match Select(roster, names, users, true)
    case Err(e) => Err(e)
    case Ok(d) =>
      RemoveSelected(roster, names);
      Ok(RemoveAll(roster, d))
  }

  /** An empty request list neither adds to nor removes from a roster. */
  lemma NothingRequested(roster: seq<string>)
    ensures Appended(roster, [], roster) && Removed(roster, [], roster)
  {
    RemoveNothing(roster);
    assert roster + [] == roster;
  }

  /** One step of the detail handler.  An empty list skips the step entirely,
      authentication and gate included. */
  function ApplyStep(cls: Class, step: Step, names: seq<string>, caller: Option<User>, users: seq<User>)
    : (r: Result<Class>)
    ensures |names| == 0 ==> r == Ok(cls)
    ensures |names| > 0 && caller.None? ==> r == Err(Unauthenticated)
    ensures |names| > 0 && caller.Some? && !MentorGate(cls.mentors, caller.value.username) ==> r == Err(Forbidden)
    ensures |names| > 0 && caller.Some? && MentorGate(cls.mentors, caller.value.username) ==>
              && (r.Ok? <==> forall i :: 0 <= i < |names| ==> UserByUsername(users, names[i]).Some?)
              && (r.Err? ==> FirstUnknown(names, users, r.failure))
    ensures r.Ok? ==> r.value == cls.(mentors := r.value.mentors, members := r.value.members)
    ensures r.Ok? && step == AddMentor ==> Appended(cls.mentors, names, r.value.mentors) && r.value.members == cls.members
    ensures r.Ok? && step == AddMember ==> Appended(cls.members, names, r.value.members) && r.value.mentors == cls.mentors
    ensures r.Ok? && step == DeleteMentor ==> Removed(cls.mentors, names, r.value.mentors) && r.value.members == cls.members
    ensures r.Ok? && step == DeleteMember ==> Removed(cls.members, names, r.value.members) && r.value.mentors == cls.mentors
  {
    if |names| == 0 then
      NothingRequested(cls.mentors);
      NothingRequested(cls.members);
      Ok(cls)
    else if caller.None? then Err(Unauthenticated)
    else if !MentorGate(cls.mentors, caller.value.username) then Err(Forbidden)
    else
      match step
      case AddMentor =>
        (match AddTo(cls.mentors, names, users)
         case Err(e) => Err(e)
         case Ok(m) => Ok(cls.(mentors := m)))
      case AddMember =>
        (match AddTo(cls.members, names, users)
         case Err(e) => Err(e)
         case Ok(m) => Ok(cls.(members := m)))
      case DeleteMentor =>
        (match RemoveFrom(cls.mentors, names, users)
         case Err(e) => Err(e)
         case Ok(m) => Ok(cls.(mentors := m)))
      case DeleteMember =>
        (match RemoveFrom(cls.members, names, users)
         case Err(e) => Err(e)
         case Ok(m) => Ok(cls.(members := m)))
  }

  /** Run the remaining steps in handler order; the first failure stops the
      request with the class as the earlier steps left it. */
  function RunSteps(cls: Class, steps: seq<Step>, req: Request, caller: Option<User>, users: seq<User>)
    : (r: Reply)
    ensures !r.ClassMissing?
    ensures r.cls == cls.(mentors := r.cls.mentors, members := r.cls.members)
    ensures (forall i :: 0 <= i < |steps| ==> |Names(req, steps[i])| == 0) ==> r == Shown(cls)
    decreases |steps|
  {
    if |steps| == 0 then Shown(cls)
    else
      match ApplyStep(cls, steps[0], Names(req, steps[0]), caller, users)
      case Err(e) => Stopped(e, cls)
      case Ok(next) =>
        assert forall i :: 1 <= i < |steps| ==> steps[i] == steps[1..][i - 1];
        RunSteps(next, steps[1..], req, caller, users)
  }

  /** A single step shows the class it produces, or stops with its failure on
      the class it was given. */
  lemma RunOneStep(cls: Class, step: Step, req: Request, caller: Option<User>, users: seq<User>)
    ensures RunSteps(cls, [step], req, caller, users)
         == match ApplyStep(cls, step, Names(req, step), caller, users)
            case Ok(next) => Shown(next)
            case Err(e) => Stopped(e, cls)
  {
  }

  /** Running two runs of steps one after the other: the second starts from the
      class the first showed, and a stop in the first ends the request. */
  lemma {:induction false} RunStepsConcat(cls: Class, a: seq<Step>, b: seq<Step>, req: Request,
                                          caller: Option<User>, users: seq<User>)
    ensures RunSteps(cls, a + b, req, caller, users)
         == match RunSteps(cls, a, req, caller, users)
            case Shown(mid) => RunSteps(mid, b, req, caller, users)
            case other => other
    decreases |a|
  {
    if |a| == 0 {
      assert a + b == b;
    } else {
      assert (a + b)[0] == a[0] && (a + b)[1..] == a[1..] + b;
      match ApplyStep(cls, a[0], Names(req, a[0]), caller, users)
      case Err(e) =>
      case Ok(next) => RunStepsConcat(next, a[1..], b, req, caller, users);
    }
  }

  /** A step that fails stops the request with every earlier step applied:
      when the steps `done` showed a class and `step` fails on it, the request
      ends on that class, whatever steps follow. */
  lemma StoppedKeepsEarlierSteps(cls: Class, done: seq<Step>, step: Step, rest: seq<Step>,
                                 req: Request, caller: Option<User>, users: seq<User>)
    ensures var before := RunSteps(cls, done, req, caller, users);
            before.Shown? && ApplyStep(before.cls, step, Names(req, step), caller, users).Err? ==>
              RunSteps(cls, done + [step] + rest, req, caller, users)
                == Stopped(ApplyStep(before.cls, step, Names(req, step), caller, users).failure, before.cls)
  {
    assert done + [step] + rest == done + ([step] + rest);
    RunStepsConcat(cls, done, [step] + rest, req, caller, users);
    assert ([step] + rest)[0] == step;
  }

  const Order: seq<Step> := [AddMentor, AddMember, DeleteMentor, DeleteMember]

  /** The detail endpoint: load the class by slug, then reconcile its rosters. */
  function Detail(classes: seq<Class>, slug: string, req: Request, caller: Option<User>, users: seq<User>)
    : (r: Reply)
    ensures r.ClassMissing? <==> ClassBySlug(classes, slug).None?
    ensures !r.ClassMissing? ==> r.cls == classes[ClassBySlug(classes, slug).value]
                                    .(mentors := r.cls.mentors, members := r.cls.members)
  {
    match ClassBySlug(classes, slug)
    case None => ClassMissing
    case Some(k) => RunSteps(classes[k], Order, req, caller, users)
  }

  predicate EmptyRequest(req: Request) {
    req.addMentor == [] && req.addMember == [] && req.deleteMentor == [] && req.deleteMember == []
  }

  /** With all four lists empty the class is shown unchanged, whoever asks. */
  lemma EmptyRequestShowsClass(classes: seq<Class>, slug: string, req: Request, caller: Option<User>, users: seq<User>)
    requires EmptyRequest(req) && ClassBySlug(classes, slug).Some?
    ensures Detail(classes, slug, req, caller, users) == Shown(classes[ClassBySlug(classes, slug).value])
  {
    assert forall i :: 0 <= i < |Order| ==> |Names(req, Order[i])| == 0;
  }

  /** A caller the gate refuses changes nothing: the first non-empty list stops
      the request before any roster is touched. */
  lemma {:induction false} RefusedCallerChangesNothing(cls: Class, steps: seq<Step>, req: Request, caller: User, users: seq<User>)
    requires !MentorGate(cls.mentors, caller.username)
    requires exists i :: 0 <= i < |steps| && |Names(req, steps[i])| > 0
    ensures RunSteps(cls, steps, req, Some(caller), users) == Stopped(Forbidden, cls)
    decreases |steps|
  {
    if |Names(req, steps[0])| == 0 {
      assert exists i :: 0 <= i < |steps[1..]| && |Names(req, steps[1..][i])| > 0 by {
        var i :| 0 <= i < |steps| && |Names(req, steps[i])| > 0;
        assert i > 0 && steps[1..][i - 1] == steps[i];
      }
      RefusedCallerChangesNothing(cls, steps[1..], req, caller, users);
    }
  }

  /** The gate is re-evaluated on the updated mentor list: once a sole mentor
      adds a different mentor, every later non-empty list of the same request
      is refused, while the added mentor stays. */
  lemma AddedMentorLocksLaterSteps(cls: Class, req: Request, caller: User, users: seq<User>, other: string)
    requires cls.mentors == [caller.username]
    requires req.addMentor == [other] && other != caller.username
    requires UserByUsername(users, other).Some?
    requires |req.addMember| > 0
    ensures RunSteps(cls, Order, req, Some(caller), users)
         == Stopped(Forbidden, cls.(mentors := [caller.username, other]))
  {
    var next := cls.(mentors := [caller.username, other]);
    AddSecondMentor(cls, caller, users, other);
    assert !MentorGate(next.mentors, caller.username);
    assert ApplyStep(next, AddMember, req.addMember, Some(caller), users) == Err(Forbidden);
    assert Order == [AddMentor] + [AddMember] + [DeleteMentor, DeleteMember];
    StoppedKeepsEarlierSteps(cls, [AddMentor], AddMember, [DeleteMentor, DeleteMember], req, Some(caller), users);
  }

  /** The sole mentor adding another mentor makes the two of them mentors. */
  lemma AddSecondMentor(cls: Class, caller: User, users: seq<User>, other: string)
    requires cls.mentors == [caller.username] && other != caller.username
    requires UserByUsername(users, other).Some?
    ensures ApplyStep(cls, AddMentor, [other], Some(caller), users) == Ok(cls.(mentors := [caller.username, other]))
  {
    assert Selected(cls.mentors, [other], false) == [other];
    assert MentorGate(cls.mentors, caller.username);
    assert AllKnown([other], users);
    var step := ApplyStep(cls, AddMentor, [other], Some(caller), users);
    assert step.Ok? && Appended(cls.mentors, [other], step.value.mentors);
    assert step.value.mentors == [caller.username, other];
  }

  /** An unknown username answers NotFound, and the mentors a previous step of
      the same request added stay added. */
  lemma UnknownMemberKeepsAddedMentors(classes: seq<Class>, slug: string, req: Request, caller: User,
                                       users: seq<User>, mid: Class)
    requires ClassBySlug(classes, slug).Some?
    requires ApplyStep(classes[ClassBySlug(classes, slug).value], AddMentor, req.addMentor, Some(caller), users) == Ok(mid)
    requires MentorGate(mid.mentors, caller.username)
    requires exists i :: 0 <= i < |req.addMember| && UserByUsername(users, req.addMember[i]).None?
    ensures var r := Detail(classes, slug, req, Some(caller), users);
            && r.Stopped? && FirstUnknown(req.addMember, users, r.failure)
            && r.cls == mid
            && Appended(classes[ClassBySlug(classes, slug).value].mentors, req.addMentor, r.cls.mentors)
  {
    var cls := classes[ClassBySlug(classes, slug).value];
    assert Order == [AddMentor] + [AddMember] + [DeleteMentor, DeleteMember];
    assert RunSteps(cls, [AddMentor], req, Some(caller), users) == Shown(mid);
    assert ApplyStep(mid, AddMember, req.addMember, Some(caller), users).Err?;
    StoppedKeepsEarlierSteps(cls, [AddMentor], AddMember, [DeleteMentor, DeleteMember], req, Some(caller), users);
  }
}
