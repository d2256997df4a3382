/** main's dispatcher and the goroutines it starts, run one step at a time.
    A buffered channel of capacity `limit` holds one token per goroutine that
    has not yet given its token back; a WaitGroup counts the goroutines whose
    runModule has not returned; each runModule stores its module in the
    registry on entry and deletes it when it returns, whatever happened in
    between. The order in which goroutines take their steps is chosen freely. */
module Dispatch {
  import opened OutputPaths
  import opened Registry

  /** How a job body ended: the output file could not be created, the
      command failed, or the command succeeded. */
  datatype Outcome = CreateFailed | CommandFailed | Completed

  /** A job body's outcome from the two results it cannot control: creating
      the output file, then running the command. */
  function BodyOutcome(created: bool, commandOk: bool): (o: Outcome)
    ensures o == CreateFailed <==> !created
    ensures o == Completed <==> created && commandOk
  {
    if !created then CreateFailed
    else if !commandOk then CommandFailed
    else Completed
  }

  /** Where a goroutine is: started but not yet in runModule, inside
      runModule after storing its start time, or back from runModule with
      its token still held. */
  datatype Phase = Launched | Running(start: Time) | Returned(outcome: Outcome)

  datatype Goroutine = Goroutine(name: string, phase: Phase)

  /** The line a finished job prints, with the file it wrote to. */
  datatype Report = Report(name: string, output: string, outcome: Outcome)

  /** Names of the goroutines whose runModule has not returned, in order:
      the ones the WaitGroup still counts. */
  function Active(gs: seq<Goroutine>): (r: seq<string>)
    ensures |r| <= |gs|
  {
    if gs == [] then []
    else (if gs[0].phase.Returned? then [] else [gs[0].name]) + Active(gs[1..])
  }

  /** Names of the goroutines between their Store and their Delete. */
  ghost function RunningNames(gs: seq<Goroutine>): set<string>
  {
    set j | 0 <= j < |gs| && gs[j].phase.Running? :: gs[j].name
  }

  /** Steps the goroutines still have to take before every token is back. */
  function StepsLeft(gs: seq<Goroutine>): nat
  {
    if gs == [] then 0
    else
      (match gs[0].phase
       case Launched => 3
       case Running(_) => 2
       case Returned(_) => 1) + StepsLeft(gs[1..])
  }

  function ReportNames(rs: seq<Report>): (r: seq<string>)
    ensures |r| == |rs| && forall k :: 0 <= k < |rs| ==> r[k] == rs[k].name
  {
    seq(|rs|, k requires 0 <= k < |rs| => rs[k].name)
  }

  lemma {:induction false} ActiveAppend(a: seq<Goroutine>, b: seq<Goroutine>)
    ensures Active(a + b) == Active(a) + Active(b)
    decreases |a|
  {
    if a == [] {
      assert a + b == b;
    } else {
      assert (a + b)[1..] == a[1..] + b;
      ActiveAppend(a[1..], b);
    }
  }

  lemma {:induction false} StepsLeftAppend(a: seq<Goroutine>, b: seq<Goroutine>)
    ensures StepsLeft(a + b) == StepsLeft(a) + StepsLeft(b)
    decreases |a|
  {
    if a == [] {
      assert a + b == b;
    } else {
      assert (a + b)[1..] == a[1..] + b;
      StepsLeftAppend(a[1..], b);
    }
  }

  lemma {:induction false} SplitAt(gs: seq<Goroutine>, i: nat)
    requires i < |gs|
    ensures Active(gs) == Active(gs[..i]) + Active([gs[i]]) + Active(gs[i + 1..])
    ensures StepsLeft(gs) == StepsLeft(gs[..i]) + StepsLeft([gs[i]]) + StepsLeft(gs[i + 1..])
  {
    assert gs == gs[..i] + [gs[i]] + gs[i + 1..];
    ActiveAppend(gs[..i] + [gs[i]], gs[i + 1..]);
    ActiveAppend(gs[..i], [gs[i]]);
    StepsLeftAppend(gs[..i] + [gs[i]], gs[i + 1..]);
    StepsLeftAppend(gs[..i], [gs[i]]);
  }

  /** `go func(...)`: a new goroutine joins the WaitGroup's count and owes
      three steps; nobody new is inside runModule yet. */
  lemma {:induction false} LaunchEffect(gs: seq<Goroutine>, name: string)
    ensures Active(gs + [Goroutine(name, Launched)]) == Active(gs) + [name]
    ensures StepsLeft(gs + [Goroutine(name, Launched)]) == StepsLeft(gs) + 3
    ensures RunningNames(gs + [Goroutine(name, Launched)]) == RunningNames(gs)
  {
    var gs' := gs + [Goroutine(name, Launched)];
    ActiveAppend(gs, [Goroutine(name, Launched)]);
    StepsLeftAppend(gs, [Goroutine(name, Launched)]);
    assert forall j :: 0 <= j < |gs| ==> gs'[j] == gs[j];
  }

  /** Store at runModule's entry: the goroutine is still counted, owes one
      step less, and its name is now among the running ones. */
  lemma {:induction false} StartEffect(gs: seq<Goroutine>, i: nat, now: Time)
    requires i < |gs| && gs[i].phase.Launched?
    ensures Active(gs[i := Goroutine(gs[i].name, Running(now))]) == Active(gs)
    ensures StepsLeft(gs[i := Goroutine(gs[i].name, Running(now))]) == StepsLeft(gs) - 1
    ensures RunningNames(gs[i := Goroutine(gs[i].name, Running(now))]) == RunningNames(gs) + {gs[i].name}
  {
    var gs' := gs[i := Goroutine(gs[i].name, Running(now))];
    SplitAt(gs, i);
    SplitAt(gs', i);
    assert gs'[..i] == gs[..i] && gs'[i + 1..] == gs[i + 1..];
    assert forall j :: 0 <= j < |gs| && j != i ==> gs'[j] == gs[j];
  }

  /** runModule's return: the goroutine leaves the WaitGroup's count (and
      only it), owes one step less, and every other running name is still
      running. */
  lemma {:induction false} ReturnEffect(gs: seq<Goroutine>, i: nat, outcome: Outcome)
    requires i < |gs| && gs[i].phase.Running?
    ensures Active(gs) == Active(gs[..i]) + [gs[i].name] + Active(gs[i + 1..])
    ensures Active(gs[i := Goroutine(gs[i].name, Returned(outcome))]) == Active(gs[..i]) + Active(gs[i + 1..])
    ensures StepsLeft(gs[i := Goroutine(gs[i].name, Returned(outcome))]) == StepsLeft(gs) - 1
    ensures RunningNames(gs[i := Goroutine(gs[i].name, Returned(outcome))]) >= RunningNames(gs) - {gs[i].name}
  {
    var gs' := gs[i := Goroutine(gs[i].name, Returned(outcome))];
    SplitAt(gs, i);
    SplitAt(gs', i);
    assert gs'[..i] == gs[..i] && gs'[i + 1..] == gs[i + 1..];
    forall x | x in RunningNames(gs) - {gs[i].name} ensures x in RunningNames(gs') {
      var j :| 0 <= j < |gs| && gs[j].phase.Running? && gs[j].name == x;
      assert j != i && gs'[j] == gs[j];
    }
  }

  /** `<-sem`: a goroutine back from runModule drops out; nothing else
      about the others changes. */
  lemma {:induction false} ReleaseEffect(gs: seq<Goroutine>, i: nat)
    requires i < |gs| && gs[i].phase.Returned?
    ensures Active(gs[..i] + gs[i + 1..]) == Active(gs)
    ensures StepsLeft(gs[..i] + gs[i + 1..]) == StepsLeft(gs) - 1
    ensures RunningNames(gs[..i] + gs[i + 1..]) == RunningNames(gs)
  {
    SplitAt(gs, i);
    ActiveAppend(gs[..i], gs[i + 1..]);
    StepsLeftAppend(gs[..i], gs[i + 1..]);
    assert [gs[i]][1..] == [];
    assert Active([gs[i]]) == [] && StepsLeft([gs[i]]) == 1;
    RunningNamesWithout(gs, i);
  }

  lemma {:induction false} RunningNamesWithout(gs: seq<Goroutine>, i: nat)
    requires i < |gs| && !gs[i].phase.Running?
    ensures RunningNames(gs[..i] + gs[i + 1..]) == RunningNames(gs)
  {
    var gs' := gs[..i] + gs[i + 1..];
    assert forall j :: 0 <= j < i ==> gs'[j] == gs[j];
    assert forall j :: i < j < |gs| ==> gs'[j - 1] == gs[j];
    forall x | x in RunningNames(gs) ensures x in RunningNames(gs') {
      var j :| 0 <= j < |gs| && gs[j].phase.Running? && gs[j].name == x;
      assert j != i;
      if j < i {
        assert gs'[j] == gs[j];
      } else {
        assert gs'[j - 1] == gs[j];
      }
    }
    forall x | x in RunningNames(gs') ensures x in RunningNames(gs) {
      var j :| 0 <= j < |gs'| && gs'[j].phase.Running? && gs'[j].name == x;
      if j < i {
        assert gs'[j] == gs[j];
      } else {
        assert gs'[j] == gs[j + 1];
      }
    }
  }

  /** Every goroutine inside runModule is counted by the WaitGroup. */
  lemma {:induction false} RunningNamesAreActive(gs: seq<Goroutine>)
    ensures forall x :: x in RunningNames(gs) ==> x in Active(gs)
  {
    if gs != [] {
      RunningNamesAreActive(gs[1..]);
      forall x | x in RunningNames(gs) ensures x in Active(gs) {
        var j :| 0 <= j < |gs| && gs[j].phase.Running? && gs[j].name == x;
        if j > 0 {
          assert gs[1..][j - 1] == gs[j];
          assert x in RunningNames(gs[1..]);
        }
      }
    }
  }

  /** A sequence has at least as many elements as it has distinct ones. */
  lemma {:induction false} DistinctAtMostLength(s: seq<string>)
    ensures |set x | x in s| <= |s|
  {
    if s != [] {
      var n := |s| - 1;
      DistinctAtMostLength(s[..n]);
      assert s == s[..n] + [s[n]];
      assert (set x | x in s) == (set x | x in s[..n]) + {s[n]};
    }
  }

  /** The registry never holds more names than the WaitGroup counts, and
      once the WaitGroup is down to zero it is empty. */
  lemma {:induction false} RegistryWithinActive(gs: seq<Goroutine>, keys: set<string>)
    requires keys <= RunningNames(gs)
    ensures |keys| <= |Active(gs)|
    ensures Active(gs) == [] ==> keys == {}
  {
    RunningNamesAreActive(gs);
    var act := set x | x in Active(gs);
    assert keys <= act;
    DistinctAtMostLength(Active(gs));
    assert |keys| <= |act| by {
      assert act == keys + (act - keys);
    }
  }

  /** Every launched module has either reported or is still counted by the
      WaitGroup, as often as it was launched. */
  ghost predicate Accounted(launched: seq<string>, reports: seq<Report>, gs: seq<Goroutine>)
  {
    multiset(launched) == multiset(ReportNames(reports)) + multiset(Active(gs))
  }

  ghost predicate Distinct<T>(s: seq<T>)
  {
    forall a, b :: 0 <= a < b < |s| ==> s[a] != s[b]
  }

  lemma {:induction false} DistinctCountsOnce<T>(s: seq<T>, x: T)
    requires Distinct(s)
    ensures multiset(s)[x] <= 1
  {
    if s != [] {
      var n := |s| - 1;
      assert s == s[..n] + [s[n]];
      DistinctCountsOnce(s[..n], x);
      if s[n] == x {
        assert x !in s[..n];
      }
    }
  }

  /** Two goroutines of a list without repeated modules never share a
      name: a second running goroutine named like the one at i would make
      that name count twice among the launched modules. */
  lemma {:induction false} RunningNameUnique(launched: seq<string>, reports: seq<Report>, gs: seq<Goroutine>, i: nat)
    requires Accounted(launched, reports, gs) && Distinct(launched)
    requires i < |gs| && gs[i].phase.Running?
    ensures forall j :: 0 <= j < |gs| && j != i && gs[j].phase.Running? ==> gs[j].name != gs[i].name
  {
    var name := gs[i].name;
    SplitAt(gs, i);
    assert Active([gs[i]]) == [name];
    var act := Active(gs);
    forall j | 0 <= j < |gs| && j != i && gs[j].phase.Running? ensures gs[j].name != name {
      var x := gs[j].name;
      if j < i {
        RunningNamesAreActive(gs[..i]);
        assert gs[..i][j] == gs[j];
        assert x in RunningNames(gs[..i]);
        assert multiset(Active(gs[..i]))[x] >= 1;
      } else {
        RunningNamesAreActive(gs[i + 1..]);
        assert gs[i + 1..][j - i - 1] == gs[j];
        assert x in RunningNames(gs[i + 1..]);
        assert multiset(Active(gs[i + 1..]))[x] >= 1;
      }
      assert multiset(act) == multiset(Active(gs[..i])) + multiset{name} + multiset(Active(gs[i + 1..]));
      assert multiset(act)[x] >= if x == name then 2 else 1;
      DistinctCountsOnce(launched, x);
    }
  }

  /** Without repeated modules, a goroutine's return takes exactly its own
      name out of the running ones. */
  lemma {:induction false} ReturnRemovesOnlyItsName(launched: seq<string>, reports: seq<Report>,
                                                    gs: seq<Goroutine>, i: nat, outcome: Outcome)
    requires Accounted(launched, reports, gs) && Distinct(launched)
    requires i < |gs| && gs[i].phase.Running?
    ensures RunningNames(gs[i := Goroutine(gs[i].name, Returned(outcome))]) == RunningNames(gs) - {gs[i].name}
  {
    var gs' := gs[i := Goroutine(gs[i].name, Returned(outcome))];
    ReturnEffect(gs, i, outcome);
    RunningNameUnique(launched, reports, gs, i);
    forall x | x in RunningNames(gs') ensures x in RunningNames(gs) - {gs[i].name} {
      var j :| 0 <= j < |gs'| && gs'[j].phase.Running? && gs'[j].name == x;
      assert j != i && gs'[j] == gs[j];
    }
  }

  /** The fixed inputs of a batch: the channel's capacity and what the
      output paths are built from. */
  datatype Config = Config(limit: nat, outputDir: string, image: string, sep: char)

  /** The dispatcher's invariant, over plain values: one token per goroutine
      that has not given it back and never more than the capacity; the
      WaitGroup counts exactly the goroutines still in or before runModule;
      a name is in the registry only while some goroutine holding it is
      inside runModule, and, when no module was launched twice, exactly
      while it is; launches and reports balance; every report names
      its module's own output file. */
  ghost predicate Consistent(c: Config, held: nat, pending: nat, gs: seq<Goroutine>,
                             keys: set<string>, launched: seq<string>, reports: seq<Report>)
  {
    && c.limit >= 1
    && held == |gs| <= c.limit
    && pending == |Active(gs)|
    && keys <= RunningNames(gs)
    && (Distinct(launched) ==> keys == RunningNames(gs))
    && Accounted(launched, reports, gs)
    && WroteOwnFiles(c, reports)
  }

  /** Each report names the output file derived from its own module. */
  ghost predicate WroteOwnFiles(c: Config, reports: seq<Report>)
  {
    forall k :: 0 <= k < |reports| ==>
      reports[k].output == OutputPath(c.outputDir, c.image, reports[k].name, c.sep)
  }

  /** Reports of different modules name different output files, and
      reports of the same module name the same one. */
  lemma ReportsShareFileOnlyForSameModule(c: Config, reports: seq<Report>, k: nat, l: nat)
    requires WroteOwnFiles(c, reports)
    requires k < |reports| && l < |reports|
    ensures reports[k].output == reports[l].output <==> reports[k].name == reports[l].name
  {
    OutputPathInjective(c.outputDir, c.image, reports[k].name, reports[l].name, c.sep);
  }

  /** Every registry entry holds the start time stored by a goroutine of
      that name which is still inside runModule. */
  ghost predicate StartTimesRecorded(entries: map<string, Time>, gs: seq<Goroutine>)
  {
    forall k :: k in entries ==> Goroutine(k, Running(entries[k])) in gs
  }

  lemma {:induction false} LaunchKeepsStartTimes(entries: map<string, Time>, gs: seq<Goroutine>, name: string)
    requires StartTimesRecorded(entries, gs)
    ensures StartTimesRecorded(entries, gs + [Goroutine(name, Launched)])
  {
    var gs' := gs + [Goroutine(name, Launched)];
    forall k | k in entries ensures Goroutine(k, Running(entries[k])) in gs' {
      var j :| 0 <= j < |gs| && gs[j] == Goroutine(k, Running(entries[k]));
      assert gs'[j] == gs[j];
    }
  }

  lemma {:induction false} StartKeepsStartTimes(entries: map<string, Time>, gs: seq<Goroutine>, i: nat, now: Time)
    requires StartTimesRecorded(entries, gs)
    requires i < |gs| && gs[i].phase.Launched?
    ensures StartTimesRecorded(entries[gs[i].name := now], gs[i := Goroutine(gs[i].name, Running(now))])
  {
    var name := gs[i].name;
    var entries', gs' := entries[name := now], gs[i := Goroutine(name, Running(now))];
    forall k | k in entries' ensures Goroutine(k, Running(entries'[k])) in gs' {
      if k == name {
        assert gs'[i] == Goroutine(k, Running(entries'[k]));
      } else {
        var j :| 0 <= j < |gs| && gs[j] == Goroutine(k, Running(entries[k]));
        assert gs'[j] == gs[j];
      }
    }
  }

  lemma {:induction false} ReturnKeepsStartTimes(entries: map<string, Time>, gs: seq<Goroutine>, i: nat, outcome: Outcome)
    requires StartTimesRecorded(entries, gs)
    requires i < |gs| && gs[i].phase.Running?
    ensures StartTimesRecorded(entries - {gs[i].name}, gs[i := Goroutine(gs[i].name, Returned(outcome))])
  {
    var name := gs[i].name;
    var entries', gs' := entries - {name}, gs[i := Goroutine(name, Returned(outcome))];
    forall k | k in entries' ensures Goroutine(k, Running(entries'[k])) in gs' {
      var j :| 0 <= j < |gs| && gs[j] == Goroutine(k, Running(entries[k]));
      assert gs'[j] == gs[j];
    }
  }

  lemma {:induction false} ReleaseKeepsStartTimes(entries: map<string, Time>, gs: seq<Goroutine>, i: nat)
    requires StartTimesRecorded(entries, gs)
    requires i < |gs| && gs[i].phase.Returned?
    ensures StartTimesRecorded(entries, gs[..i] + gs[i + 1..])
  {
    var gs' := gs[..i] + gs[i + 1..];
    forall k | k in entries ensures Goroutine(k, Running(entries[k])) in gs' {
      var j :| 0 <= j < |gs| && gs[j] == Goroutine(k, Running(entries[k]));
      if j < i {
        assert gs'[j] == gs[j];
      } else {
        assert gs'[j - 1] == gs[j];
      }
    }
  }

  /** The dispatcher's whole invariant: the registry's keys as Consistent
      requires, and the start time each entry holds. */
  ghost predicate Invariant(c: Config, held: nat, pending: nat, gs: seq<Goroutine>,
                            entries: map<string, Time>, launched: seq<string>, reports: seq<Report>)
  {
    && Consistent(c, held, pending, gs, entries.Keys, launched, reports)
    && StartTimesRecorded(entries, gs)
  }

  /** A body's return, on any outcome, keeps the whole invariant once its
      Delete has run and its report is added. */
  lemma {:induction false} ReturnKeepsInvariant(c: Config, held: nat, pending: nat, gs: seq<Goroutine>,
                             entries: map<string, Time>, launched: seq<string>, reports: seq<Report>, i: nat, outcome: Outcome)
    requires Invariant(c, held, pending, gs, entries, launched, reports)
    requires i < |gs| && gs[i].phase.Running?
    ensures pending >= 1
    ensures Invariant(c, held, pending - 1, gs[i := Goroutine(gs[i].name, Returned(outcome))],
                      entries - {gs[i].name}, launched,
                      reports + [Report(gs[i].name, OutputPath(c.outputDir, c.image, gs[i].name, c.sep), outcome)])
    ensures StepsLeft(gs[i := Goroutine(gs[i].name, Returned(outcome))]) == StepsLeft(gs) - 1
  {
    ReturnKeepsConsistent(c, held, pending, gs, entries.Keys, launched, reports, i, outcome);
    ReturnKeepsStartTimes(entries, gs, i, outcome);
    assert (entries - {gs[i].name}).Keys == entries.Keys - {gs[i].name};
  }

  /** Taking a token and starting a goroutine, allowed only while a token is
      free, keeps the invariant. */
  lemma {:induction false} LaunchKeepsConsistent(c: Config, held: nat, pending: nat, gs: seq<Goroutine>,
                             keys: set<string>, launched: seq<string>, reports: seq<Report>, name: string)
    requires Consistent(c, held, pending, gs, keys, launched, reports) && held < c.limit
    ensures Consistent(c, held + 1, pending + 1, gs + [Goroutine(name, Launched)], keys, launched + [name], reports)
    ensures StepsLeft(gs + [Goroutine(name, Launched)]) == StepsLeft(gs) + 3
  {
    LaunchEffect(gs, name);
    assert Active([Goroutine(name, Launched)]) == [name];
    assert Distinct(launched + [name]) ==> Distinct(launched) by {
      assert forall a :: 0 <= a < |launched| ==> (launched + [name])[a] == launched[a];
    }
  }

  /** Storing the start time at runModule's entry keeps the invariant. */
  lemma {:induction false} StartKeepsConsistent(c: Config, held: nat, pending: nat, gs: seq<Goroutine>,
                             keys: set<string>, launched: seq<string>, reports: seq<Report>, i: nat, now: Time)
    requires Consistent(c, held, pending, gs, keys, launched, reports)
    requires i < |gs| && gs[i].phase.Launched?
    ensures Consistent(c, held, pending, gs[i := Goroutine(gs[i].name, Running(now))],
                       keys + {gs[i].name}, launched, reports)
    ensures StepsLeft(gs[i := Goroutine(gs[i].name, Running(now))]) == StepsLeft(gs) - 1
  {
    StartEffect(gs, i, now);
  }

  /** runModule's return, whatever its outcome, deletes the name, reports,
      and leaves the WaitGroup, and keeps the invariant; the token stays. */
  lemma {:induction false} ReturnKeepsConsistent(c: Config, held: nat, pending: nat, gs: seq<Goroutine>,
                             keys: set<string>, launched: seq<string>, reports: seq<Report>, i: nat, outcome: Outcome)
    requires Consistent(c, held, pending, gs, keys, launched, reports)
    requires i < |gs| && gs[i].phase.Running?
    ensures pending >= 1
    ensures Consistent(c, held, pending - 1, gs[i := Goroutine(gs[i].name, Returned(outcome))],
                       keys - {gs[i].name}, launched,
                       reports + [Report(gs[i].name, OutputPath(c.outputDir, c.image, gs[i].name, c.sep), outcome)])
    ensures StepsLeft(gs[i := Goroutine(gs[i].name, Returned(outcome))]) == StepsLeft(gs) - 1
  {
    var name := gs[i].name;
    var gs' := gs[i := Goroutine(name, Returned(outcome))];
    var report := Report(name, OutputPath(c.outputDir, c.image, name, c.sep), outcome);
    var reports' := reports + [report];
    ReturnEffect(gs, i, outcome);
    assert pending - 1 == |Active(gs')|;
    assert keys - {name} <= RunningNames(gs');
    if Distinct(launched) {
      ReturnRemovesOnlyItsName(launched, reports, gs, i, outcome);
    }
    AccountedAfterReturn(launched, reports, gs, gs', Active(gs[..i]), Active(gs[i + 1..]), report);
    WroteOwnFilesAppend(c, reports, report);
  }

  lemma {:induction false} WroteOwnFilesAppend(c: Config, reports: seq<Report>, report: Report)
    requires WroteOwnFiles(c, reports)
    requires report.output == OutputPath(c.outputDir, c.image, report.name, c.sep)
    ensures WroteOwnFiles(c, reports + [report])
  {
    var reports' := reports + [report];
    assert forall k :: 0 <= k < |reports| ==> reports'[k] == reports[k];
  }

  lemma {:induction false} AccountedAfterReturn(launched: seq<string>, reports: seq<Report>, gs: seq<Goroutine>,
                             gs': seq<Goroutine>, before: seq<string>, after: seq<string>, report: Report)
    requires Accounted(launched, reports, gs)
    requires Active(gs) == before + [report.name] + after && Active(gs') == before + after
    ensures Accounted(launched, reports + [report], gs')
  {
    var done := ReportNames(reports);
    var done' := ReportNames(reports + [report]);
    assert done' == done + [report.name];
    MoveToDone(launched, done, Active(gs), done', Active(gs'), before, report.name, after);
  }

  /** Moving x from the pending part to the done part leaves the total alone. */
  lemma MoveToDone<T>(total: seq<T>, done: seq<T>, pending: seq<T>, done': seq<T>, pending': seq<T>,
                      before: seq<T>, x: T, after: seq<T>)
    requires multiset(total) == multiset(done) + multiset(pending)
    requires pending == before + [x] + after && pending' == before + after && done' == done + [x]
    ensures multiset(total) == multiset(done') + multiset(pending')
  {
  }

  /** Giving the token back after runModule has returned keeps the
      invariant. */
  lemma {:induction false} ReleaseKeepsConsistent(c: Config, held: nat, pending: nat, gs: seq<Goroutine>,
                             keys: set<string>, launched: seq<string>, reports: seq<Report>, i: nat)
    requires Consistent(c, held, pending, gs, keys, launched, reports)
    requires i < |gs| && gs[i].phase.Returned?
    ensures held >= 1
    ensures Consistent(c, held - 1, pending, gs[..i] + gs[i + 1..], keys, launched, reports)
    ensures StepsLeft(gs[..i] + gs[i + 1..]) == StepsLeft(gs) - 1
  {
    ReleaseEffect(gs, i);
  }

  /** What the invariant gives once the WaitGroup is at zero: every launched
      module has reported exactly as often as it was launched, every
      goroutine still holding a token has returned from runModule, and the
      registry is empty. While it is not, the registry holds at most as many
      names as the WaitGroup counts, so never more than the capacity nor
      more than the modules launched. */
  lemma {:induction false} ConsistentBounds(c: Config, held: nat, pending: nat, gs: seq<Goroutine>,
                             keys: set<string>, launched: seq<string>, reports: seq<Report>)
    requires Consistent(c, held, pending, gs, keys, launched, reports)
    ensures |keys| <= pending <= held <= c.limit
    ensures pending <= |launched|
    ensures pending == 0 ==> keys == {}
    ensures pending == 0 ==> multiset(ReportNames(reports)) == multiset(launched)
    ensures pending == 0 ==> forall g :: g in gs ==> g.phase.Returned?
  {
    RegistryWithinActive(gs, keys);
    assert |multiset(launched)| == |multiset(ReportNames(reports))| + |multiset(Active(gs))|;
    if pending == 0 {
      AllReturned(gs);
    }
  }

  class Dispatcher {
    const config: Config
    const registry: RunRegistry

    /** Tokens in the channel `sem`. */
    var held: nat
    /** The WaitGroup's counter. */
    var pending: nat
    /** Goroutines that still hold a token, in launch order. */
    var inFlight: seq<Goroutine>
    /** Modules launched so far, in launch order. */
    var launched: seq<string>
    /** Jobs whose body has returned, in the order they returned. */
    var reports: seq<Report>

    ghost predicate Valid()
      reads this, registry
    {
      Invariant(config, held, pending, inFlight, registry.entries, launched, reports)
    }

    /** A fresh channel, WaitGroup and (empty) registry. */
    constructor (config: Config)
      requires config.limit >= 1
      ensures Valid() && fresh(registry) && this.config == config
      ensures held == 0 && pending == 0 && registry.entries == map[]
      ensures inFlight == [] && launched == [] && reports == []
    {
      this.config := config;
      registry := new RunRegistry();
      held, pending := 0, 0;
      inFlight, launched, reports := [], [], [];
    }

    /** `sem <- struct{}{}; wg.Add(1); go func(...)`: take a token, count the
        goroutine and start it. The send only proceeds while the channel has
        room. */
    method Launch(name: string)
      requires Valid() && held < config.limit
      modifies this
      ensures Valid()
      ensures held == old(held) + 1 && pending == old(pending) + 1
      ensures inFlight == old(inFlight) + [Goroutine(name, Launched)]
      ensures launched == old(launched) + [name]
      ensures reports == old(reports)
      ensures StepsLeft(inFlight) == old(StepsLeft(inFlight)) + 3
    {
      LaunchKeepsConsistent(config, held, pending, inFlight, registry.entries.Keys, launched, reports, name);
      LaunchKeepsStartTimes(registry.entries, inFlight, name);
      held := held + 1;
      pending := pending + 1;
      inFlight := inFlight + [Goroutine(name, Launched)];
      launched := launched + [name];
    }

    /** runModule's entry: `runningModules.Store(module, start)`. */
    method Start(i: nat, now: Time)
      requires Valid() && i < |inFlight| && inFlight[i].phase.Launched?
      modifies this, registry
      ensures Valid()
      ensures inFlight == old(inFlight)[i := Goroutine(old(inFlight[i].name), Running(now))]
      ensures registry.entries == old(registry.entries)[old(inFlight[i].name) := now]
      ensures held == old(held) && pending == old(pending)
      ensures launched == old(launched) && reports == old(reports)
      ensures StepsLeft(inFlight) == old(StepsLeft(inFlight)) - 1
    {
      var name := inFlight[i].name;
      StartKeepsConsistent(config, held, pending, inFlight, registry.entries.Keys, launched, reports, i, now);
      StartKeepsStartTimes(registry.entries, inFlight, i, now);
      registry.Store(name, now);
      inFlight := inFlight[i := Goroutine(name, Running(now))];
    }

    /** runModule's return, on whichever path: the output file is created
        (or not), the command runs (or fails), then the deferred Delete and
        wg.Done run. The token is still held. */
    method Return(i: nat, created: bool, commandOk: bool)
      requires Valid() && i < |inFlight| && inFlight[i].phase.Running?
      modifies this, registry
      ensures Valid()
      ensures inFlight == old(inFlight)[i := Goroutine(old(inFlight[i].name), Returned(BodyOutcome(created, commandOk)))]
      ensures registry.entries == old(registry.entries) - {old(inFlight[i].name)}
      ensures old(inFlight[i].name) !in registry.entries
      ensures held == old(held) && pending == old(pending) - 1
      ensures launched == old(launched)
      ensures reports == old(reports) + [Report(old(inFlight[i].name),
        OutputPath(config.outputDir, config.image, old(inFlight[i].name), config.sep), BodyOutcome(created, commandOk))]
      ensures StepsLeft(inFlight) == old(StepsLeft(inFlight)) - 1
    {
      var name := inFlight[i].name;
      var outcome := BodyOutcome(created, commandOk);
      var report := Report(name, OutputPath(config.outputDir, config.image, name, config.sep), outcome);
      var gs' := inFlight[i := Goroutine(name, Returned(outcome))];
      ReturnKeepsInvariant(config, held, pending, inFlight, registry.entries, launched, reports, i, outcome);
      registry.Delete(name);
      inFlight := gs';
      pending := pending - 1;
      reports := reports + [report];
    }

    /** `<-sem` after runModule has returned: give the token back. */
    method Release(i: nat)
      requires Valid() && i < |inFlight| && inFlight[i].phase.Returned?
      modifies this
      ensures Valid()
      ensures inFlight == old(inFlight)[..i] + old(inFlight)[i + 1..]
      ensures held == old(held) - 1 && pending == old(pending)
      ensures launched == old(launched) && reports == old(reports)
      ensures StepsLeft(inFlight) == old(StepsLeft(inFlight)) - 1
    {
      ReleaseKeepsConsistent(config, held, pending, inFlight, registry.entries.Keys, launched, reports, i);
      ReleaseKeepsStartTimes(registry.entries, inFlight, i);
      inFlight := inFlight[..i] + inFlight[i + 1..];
      held := held - 1;
    }

    /** Goroutine i takes its next step. */
    method Step(i: nat, now: Time, created: bool, commandOk: bool)
      requires Valid() && i < |inFlight|
      modifies this, registry
      ensures Valid()
      ensures launched == old(launched) && held <= old(held)
      ensures StepsLeft(inFlight) == old(StepsLeft(inFlight)) - 1
    {
      match inFlight[i].phase
      case Launched => Start(i, now);
      case Running(_) => Return(i, created, commandOk);
      case Returned(_) => Release(i);
    }

    /** Goroutines take steps, in an order chosen freely, for as long as
        they like; they must when every token is taken. Ends with room in
        the channel. */
    method Interleave()
      requires Valid()
      modifies this, registry
      ensures Valid() && held < config.limit
      ensures launched == old(launched)
    {
      while inFlight != []
        invariant Valid() && launched == old(launched)
        decreases StepsLeft(inFlight)
      {
        if held < config.limit {
          if * { break; }
        }
        var i :| 0 <= i < |inFlight|;
        var now: Time := *;
        var created: bool := *;
        var commandOk: bool := *;
        Step(i, now, created, commandOk);
      }
    }

    /** main's loop over the modules and the final wg.Wait(): every module
        is launched once, in list order; when the wait ends every body has
        returned and reported, and the registry is empty. Tokens of
        goroutines that have not yet reached `<-sem` may still be held. */
    method RunAll(modules: seq<string>)
      requires Valid()
      modifies this, registry
      ensures Valid()
      ensures launched == old(launched) + modules
      ensures pending == 0
      ensures registry.entries == map[]
      ensures forall g :: g in inFlight ==> g.phase.Returned?
      ensures multiset(ReportNames(reports)) == multiset(launched)
    {
      for k := 0 to |modules|
        invariant Valid()
        invariant launched == old(launched) + modules[..k]
      {
        assert modules[..k + 1] == modules[..k] + [modules[k]];
        Interleave();
        Launch(modules[k]);
      }
      assert modules[..|modules|] == modules;
      while pending > 0
        invariant Valid() && launched == old(launched) + modules
        decreases StepsLeft(inFlight)
      {
        ConsistentBounds(config, held, pending, inFlight, registry.entries.Keys, launched, reports);
        var i :| 0 <= i < |inFlight|;
        var now: Time := *;
        var created: bool := *;
        var commandOk: bool := *;
        Step(i, now, created, commandOk);
      }
      ConsistentBounds(config, held, pending, inFlight, registry.entries.Keys, launched, reports);
    }
  }

  /** With nothing left for the WaitGroup, every goroutine still holding a
      token has returned from runModule. */
  lemma {:induction false} AllReturned(gs: seq<Goroutine>)
    requires Active(gs) == []
    ensures forall g :: g in gs ==> g.phase.Returned?
  {
    if gs != [] {
      assert Active(gs[1..]) == [];
      AllReturned(gs[1..]);
      assert forall g :: g in gs ==> g == gs[0] || g in gs[1..];
    }
  }
}
