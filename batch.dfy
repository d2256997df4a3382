/** main after flag parsing: filter the module list, pick the concurrency
    limit, dispatch every module and wait for the WaitGroup. */
module Batch {
  import opened Registry
  import opened ModuleList
  import opened Limits
  import opened Dispatch

  /** One batch: `lines` are the modules file's lines and `numCPU` is
      runtime.NumCPU(). Every non-empty line is launched once, in file
      order, under a limit of NumCPU - 1 (at least one); when wg.Wait()
      returns each of them has reported once and the registry is empty. */
  method RunBatch(lines: seq<string>, numCPU: int, outputDir: string, image: string, sep: char)
    returns (d: Dispatcher)
    ensures fresh(d) && d.Valid()
    ensures d.config == Config(GoroutineLimit(numCPU), outputDir, image, sep)
    ensures d.launched == NonEmptyLines(lines)
    ensures d.pending == 0 && d.registry.entries == map[]
    ensures multiset(ReportNames(d.reports)) == multiset(d.launched)
  {
    var modules := FilterModules(lines);
    var limit := GoroutineLimit(numCPU);
    d := new Dispatcher(Config(limit, outputDir, image, sep));
    d.RunAll(modules);
  }

  /** Two modules under a limit of two: both are in the registry at the same
      time and every token is taken. */
  method TwoModulesTwoTokens()
  {
    var d := new Dispatcher(Config(2, "out", "mem.raw", '/'));
    d.Launch("pslist");
    d.Launch("pstree");
    d.Start(0, 100);
    d.Start(1, 101);
    assert d.registry.entries.Keys == {"pslist", "pstree"};
    assert d.held == d.config.limit;
  }

  /** Under a limit of one the second module waits for the token: after the
      first goroutine's wg.Done the token is still held, and only its
      release lets the next launch through. */
  method TokenOutlivesDone()
  {
    var d := new Dispatcher(Config(1, "out", "mem.raw", '/'));
    d.Launch("pslist");
    d.Start(0, 100);
    d.Return(0, true, true);
    assert d.pending == 0 && d.held == d.config.limit;
    d.Release(0);
    d.Launch("netscan");
    assert d.inFlight == [Goroutine("netscan", Launched)];
  }

  /** The same module listed twice: both goroutines store the same key, and
      when the first returns its Delete removes the key although the second
      is still inside runModule. */
  method RepeatedModule()
  {
    var d := new Dispatcher(Config(2, "out", "mem.raw", '/'));
    d.Launch("pslist");
    d.Launch("pslist");
    d.Start(0, 100);
    d.Start(1, 101);
    assert d.registry.entries == map["pslist" := 101];
    d.Return(0, false, false);
    assert d.inFlight[1].phase.Running?;
    assert "pslist" !in d.registry.entries;
  }
}
