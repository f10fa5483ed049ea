/** Several logins at once: reading the user, looking at the password in memory, marking it used and
    forgetting it are separate steps of each login. Every other event still happens at once. */
module InitialPasswordRace {
  import opened Common
  import opened InitialPassword

  type TaskId = int

  /** A login that got past the refusals as the admin with the password unused, and what it does next. */
  datatype Task =
    | AtCheck
    | Holding(password: string)
    | Marked(password: string)
    | Returned(password: string)

  /** `ended` are the logins that were handed the password and have returned it, in any process. */
  datatype Race = Race(system: System, tasks: map<TaskId, Task>, ended: nat)

  datatype Action =
    | Other(event: Event)
    | Read(task: TaskId, login: Event)
    | CheckMemory(task: TaskId)
    | Mark(task: TaskId)
    | Forget(task: TaskId)

  const NOTHING_YET := Race(FRESH, map[], 0)

  /** The user as read at the start of the login allows the hand-over. */
  predicate Eligible(users: map<string, User>, matches: Matches, e: Event)
    requires e.Login?
  {
    var user := Identified(users, matches, e);
    && user.Some? && !user.value.disabled && !(e.totpRequired && user.value.totpEnabled) && e.signs
    && e.username == ADMIN && !user.value.initialPasswordUsed
  }

  function AfterRead(r: Race, matches: Matches, k: TaskId, e: Event): Race
    requires e.Login?
  {
    var user := Identified(r.system.users, matches, e);
    if user.None? then r
    else
      r.(system := r.system.(users := r.system.users[e.username := user.value]),
         tasks := if Eligible(r.system.users, matches, e) then r.tasks[k := AtCheck] else r.tasks)
  }

  /** A restart forgets the logins of the process that ended. */
  function Next(r: Race, matches: Matches, a: Action): Race {
    match a
    case Other(e) =>
      if e.Login? then r
      else r.(system := Step(r.system, matches, e), tasks := if e.Restart? then map[] else r.tasks)
    case Read(k, e) => if !e.Login? || k in r.tasks then r else AfterRead(r, matches, k, e)
    case CheckMemory(k) =>
      if k !in r.tasks || !r.tasks[k].AtCheck? then r
      else r.(tasks := if r.system.memory != "" then r.tasks[k := Holding(r.system.memory)] else r.tasks - {k})
    case Mark(k) =>
      if k !in r.tasks || !r.tasks[k].Holding? then r
      else r.(system := r.system.(users := MarkedUsed(r.system.users)),
              tasks := r.tasks[k := Marked(r.tasks[k].password)])
    case Forget(k) =>
      if k !in r.tasks || !r.tasks[k].Marked? then r
      else r.(system := r.system.(memory := ""), tasks := r.tasks[k := Returned(r.tasks[k].password)],
              ended := r.ended + 1)
  }

  function Run(r: Race, matches: Matches, run: seq<Action>): Race
    decreases |run|
  {
    if run == [] then r else Run(Next(r, matches, run[0]), matches, run[1..])
  }

  function MarkedUsed(users: map<string, User>): map<string, User> {
    if ADMIN in users then users[ADMIN := users[ADMIN].(initialPasswordUsed := true)] else users
  }

  /** The logins that have been handed the password and not returned it yet. */
  function Holders(r: Race): set<TaskId> {
    set k | k in r.tasks && (r.tasks[k].Holding? || r.tasks[k].Marked?)
  }

  function HandedOver(r: Race): nat {
    |Holders(r)| + r.ended
  }

  /** A login looks at the memory, and finds the password, while another one holds it. */
  predicate Overlaps(r: Race, a: Action) {
    a.CheckMemory? && a.task in r.tasks && r.tasks[a.task].AtCheck? && r.system.memory != "" && Holders(r) != {}
  }

  ghost predicate AtMostOnce(r: Race, matches: Matches, run: seq<Action>)
    decreases |run|
  {
    HandedOver(r) <= 1 && (run != [] ==> AtMostOnce(Next(r, matches, run[0]), matches, run[1..]))
  }

  ghost predicate NeverOverlaps(r: Race, matches: Matches, run: seq<Action>)
    decreases |run|
  {
    run == [] || (!Overlaps(r, run[0]) && NeverOverlaps(Next(r, matches, run[0]), matches, run[1..]))
  }

  // ----- what holds while no two logins overlap -----

  /** Once a login has marked the password it stays used; once one has returned it the memory stays empty. */
  ghost predicate Inv(r: Race) {
    && HandedOver(r) <= 1
    && (forall k :: k in r.tasks && !r.tasks[k].Returned? ==> ADMIN in r.system.users)
    && (forall k :: k in r.tasks && r.tasks[k].Marked? ==> Used(r.system))
    && (r.ended > 0 ==> Used(r.system) && r.system.memory == "")
  }

  lemma StepKeepsInv(r: Race, matches: Matches, e: Event)
    requires Inv(r) && !e.Login?
    ensures Inv(Next(r, matches, Other(e)))
  {
    var r' := Next(r, matches, Other(e));
    if e.Restart? {
      assert Holders(r') == {};
    } else {
      assert Holders(r') == Holders(r);
    }
  }

  lemma ReadKeepsInv(r: Race, matches: Matches, k: TaskId, e: Event)
    requires Inv(r)
    ensures Inv(Next(r, matches, Read(k, e)))
  {
    assert Holders(Next(r, matches, Read(k, e))) == Holders(r);
  }

  lemma CheckKeepsInv(r: Race, matches: Matches, k: TaskId)
    requires Inv(r) && !Overlaps(r, CheckMemory(k))
    ensures Inv(Next(r, matches, CheckMemory(k)))
  {
    var r' := Next(r, matches, CheckMemory(k));
    if k in r.tasks && r.tasks[k].AtCheck? && r.system.memory != "" {
      assert Holders(r') == {k};
    } else {
      assert Holders(r') == Holders(r);
    }
  }

  lemma WriteKeepsInv(r: Race, matches: Matches, a: Action)
    requires Inv(r) && (a.Mark? || a.Forget?)
    ensures Inv(Next(r, matches, a))
  {
    var r' := Next(r, matches, a);
    if a.Forget? && a.task in r.tasks && r.tasks[a.task].Marked? {
      assert a.task in Holders(r) && Holders(r') == Holders(r) - {a.task};
    } else {
      assert Holders(r') == Holders(r);
    }
  }

  lemma ActionKeepsInv(r: Race, matches: Matches, a: Action)
    requires Inv(r) && !Overlaps(r, a)
    ensures Inv(Next(r, matches, a))
  {
    match a {
      case Other(e) => if !e.Login? { StepKeepsInv(r, matches, e); }
      case Read(k, e) => ReadKeepsInv(r, matches, k, e);
      case CheckMemory(k) => CheckKeepsInv(r, matches, k);
      case _ => WriteKeepsInv(r, matches, a);
    }
  }

  lemma OverlapHandsOverTwice(r: Race, matches: Matches, a: Action)
    requires Overlaps(r, a)
    ensures HandedOver(Next(r, matches, a)) >= 2
  {
    assert Holders(Next(r, matches, a)) == Holders(r) + {a.task};
    assert a.task !in Holders(r);
  }

  /** At most one login is ever handed the initial password, restarts and any interleaving included,
      exactly when no login finds it in memory while another still holds it. */
  lemma {:induction false} AtMostOnceIff(r: Race, matches: Matches, run: seq<Action>)
    requires Inv(r)
    ensures AtMostOnce(r, matches, run) <==> NeverOverlaps(r, matches, run)
    decreases |run|
  {
    if run != [] {
      var r' := Next(r, matches, run[0]);
      if Overlaps(r, run[0]) {
        OverlapHandsOverTwice(r, matches, run[0]);
        assert !AtMostOnce(r', matches, run[1..]);
      } else {
        ActionKeepsInv(r, matches, run[0]);
        AtMostOnceIff(r', matches, run[1..]);
      }
    }
  }

  /** The same from a process that has not started yet, over an empty user table. */
  lemma AtMostOnceFromStartIff(matches: Matches, run: seq<Action>)
    ensures AtMostOnce(NOTHING_YET, matches, run) <==> NeverOverlaps(NOTHING_YET, matches, run)
  {
    assert Holders(NOTHING_YET) == {};
    AtMostOnceIff(NOTHING_YET, matches, run);
  }

  // ----- a login with nothing in between is one step -----

  function Alone(k: TaskId, e: Event): seq<Action> {
    [Read(k, e), CheckMemory(k), Mark(k), Forget(k)]
  }

  lemma AloneInSteps(r: Race, matches: Matches, k: TaskId, e: Event)
    ensures Run(r, matches, Alone(k, e))
         == Next(Next(Next(Next(r, matches, Read(k, e)), matches, CheckMemory(k)), matches, Mark(k)), matches,
                 Forget(k))
  {
    var a := Alone(k, e);
    var r1 := Next(r, matches, a[0]);
    var r2 := Next(r1, matches, a[1]);
    var r3 := Next(r2, matches, a[2]);
    var r4 := Next(r3, matches, a[3]);
    assert a[1..][1..] == a[2..] && a[2..][1..] == a[3..] && a[3..][1..] == [];
    assert Run(r, matches, a) == Run(r1, matches, a[1..]) == Run(r2, matches, a[2..]);
    assert Run(r2, matches, a[2..]) == Run(r3, matches, a[3..]) == Run(r4, matches, []);
  }

  /** The steps of a login, one after the other, do what the login does as one step, and it returns the
      password exactly if it is handed it there. */
  lemma LoginAloneIsOneStep(r: Race, matches: Matches, k: TaskId, e: Event)
    requires e.Login? && k !in r.tasks
    ensures var end := Run(r, matches, Alone(k, e));
            && end.system == Step(r.system, matches, e)
            && (HandsOver(r.system, matches, e) ==>
                  var password := LoginReply(r.system, matches, e).initialPassword;
                  end.tasks == r.tasks[k := Returned(password)] && end.ended == r.ended + 1)
            && (!HandsOver(r.system, matches, e) ==> end.tasks == r.tasks && end.ended == r.ended)
  {
    AloneInSteps(r, matches, k, e);
    var r1 := Next(r, matches, Read(k, e));
    var r2 := Next(r1, matches, CheckMemory(k));
    if k in r1.tasks && r.system.memory == "" {
      assert r1.tasks - {k} == r.tasks;
    }
  }

  // ----- two logins do overlap -----

  /** What is handed over is returned: whoever holds the password can finish, whatever the others do. */
  lemma HolderReturns(r: Race, matches: Matches, k: TaskId)
    requires k in Holders(r)
    ensures var r' := Next(Next(r, matches, Mark(k)), matches, Forget(k));
            && r'.ended == r.ended + 1 && k in r'.tasks && r'.tasks[k] == Returned(r.tasks[k].password)
            && forall j :: j != k && j in r.tasks ==> j in r'.tasks && r'.tasks[j] == r.tasks[j]
  {
  }

  /** So two logins that overlap can both return it. */
  lemma OverlapReturnsTwice(r: Race, matches: Matches, k: TaskId, j: TaskId)
    requires Overlaps(r, CheckMemory(k)) && j in Holders(r)
    ensures var handed := Next(r, matches, CheckMemory(k));
            var first := Next(Next(handed, matches, Mark(k)), matches, Forget(k));
            var second := Next(Next(first, matches, Mark(j)), matches, Forget(j));
            && second.ended == r.ended + 2
            && second.tasks[k] == Returned(r.system.memory) && second.tasks[j] == Returned(r.tasks[j].password)
  {
    var handed := Next(r, matches, CheckMemory(k));
    HolderReturns(handed, matches, k);
    HolderReturns(Next(Next(handed, matches, Mark(k)), matches, Forget(k)), matches, j);
  }

  const FIRST_LOGIN := Login("admin", "pw", None, false, true)

  /** The process starts, two logins with the generated password read the admin, one looks at the memory. */
  const BOTH_READ: seq<Action> := [
    Other(Restart("pw", "h")), Read(1, FIRST_LOGIN), Read(2, FIRST_LOGIN), CheckMemory(1)]

  const BOTH_RETURN: seq<Action> := [CheckMemory(2), Mark(2), Forget(2), Mark(1), Forget(1)]

  lemma {:induction false} RunSplit(r: Race, matches: Matches, first: seq<Action>, second: seq<Action>)
    ensures Run(r, matches, first + second) == Run(Run(r, matches, first), matches, second)
    decreases |first|
  {
    if first == [] {
      assert first + second == second;
    } else {
      assert (first + second)[1..] == first[1..] + second;
      RunSplit(Next(r, matches, first[0]), matches, first[1..], second);
    }
  }

  lemma Unfold(r: Race, matches: Matches, run: seq<Action>, i: nat)
    requires i < |run|
    ensures Run(r, matches, run[i..]) == Run(Next(r, matches, run[i]), matches, run[i + 1..])
  {
    assert run[i..][1..] == run[i + 1..];
  }

  lemma FirstReads(matches: Matches)
    requires matches("h", "pw")
    ensures var admin := User("h", ADMIN_NAME, false, Local, false, false);
            Run(NOTHING_YET, matches, BOTH_READ)
            == Race(System(map["admin" := admin], "pw"), map[1 := Holding("pw"), 2 := AtCheck], 0)
  {
    var a := BOTH_READ;
    var system := System(map["admin" := User("h", ADMIN_NAME, false, Local, false, false)], "pw");
    var r1 := Next(NOTHING_YET, matches, a[0]);
    assert r1 == Race(system, map[], 0);
    var r2 := Next(r1, matches, a[1]);
    assert system.users["admin" := system.users["admin"]] == system.users;
    assert r2 == Race(system, map[1 := AtCheck], 0);
    var r3 := Next(r2, matches, a[2]);
    assert r3 == Race(system, map[1 := AtCheck, 2 := AtCheck], 0);
    Unfold(NOTHING_YET, matches, a, 0);
    Unfold(r1, matches, a, 1);
    Unfold(r2, matches, a, 2);
    Unfold(r3, matches, a, 3);
    assert a[0..] == a && a[4..] == [];
  }

  lemma RunFive(r: Race, matches: Matches, a: seq<Action>)
    requires |a| == 5
    ensures Run(r, matches, a)
         == Next(Next(Next(Next(Next(r, matches, a[0]), matches, a[1]), matches, a[2]), matches, a[3]), matches, a[4])
  {
    var r1 := Next(r, matches, a[0]);
    var r2 := Next(r1, matches, a[1]);
    var r3 := Next(r2, matches, a[2]);
    Unfold(r, matches, a, 0);
    Unfold(r1, matches, a, 1);
    Unfold(r2, matches, a, 2);
    Unfold(r3, matches, a, 3);
    Unfold(Next(r3, matches, a[3]), matches, a, 4);
    assert a[0..] == a && a[5..] == [];
  }

  /** A run from nothing: both logins read the admin before either looks at the
      memory, the second looks while the first still holds the password, and both return it. */
  lemma TwoFirstLoginsBothReturnIt(matches: Matches)
    requires matches("h", "pw")
    ensures Overlaps(Run(NOTHING_YET, matches, BOTH_READ), CheckMemory(2))
    ensures var end := Run(NOTHING_YET, matches, BOTH_READ + BOTH_RETURN);
            && end.ended == 2 && 1 in end.tasks && 2 in end.tasks
            && end.tasks[1] == Returned("pw") && end.tasks[2] == Returned("pw")
  {
    var r := Run(NOTHING_YET, matches, BOTH_READ);
    FirstReads(matches);
    assert 1 in Holders(r);
    OverlapReturnsTwice(r, matches, 2, 1);
    RunSplit(NOTHING_YET, matches, BOTH_READ, BOTH_RETURN);
    RunFive(r, matches, BOTH_RETURN);
  }

  /** So the property fails from the start, over that run. */
  lemma NotAtMostOnce(matches: Matches)
    requires matches("h", "pw")
    ensures !AtMostOnce(NOTHING_YET, matches, BOTH_READ + BOTH_RETURN)
  {
    TwoFirstLoginsBothReturnIt(matches);
    AtMostOnceAtTheEnd(NOTHING_YET, matches, BOTH_READ + BOTH_RETURN);
  }

  lemma {:induction false} AtMostOnceAtTheEnd(r: Race, matches: Matches, run: seq<Action>)
    ensures AtMostOnce(r, matches, run) ==> HandedOver(Run(r, matches, run)) <= 1
    decreases |run|
  {
    if run != [] {
      AtMostOnceAtTheEnd(Next(r, matches, run[0]), matches, run[1..]);
    }
  }
}
