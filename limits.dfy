/** The concurrency limit main derives from the processor count. */
module Limits {

  /** Goroutines allowed at once: one fewer than the logical processors, but
      never below one. */
  function GoroutineLimit(numCPU: int): (r: int)
    ensures r >= 1
    ensures numCPU >= 2 ==> r == numCPU - 1
    ensures numCPU <= 2 ==> r == 1
  {
    var n := numCPU - 1;
    if n < 1 then 1 else n
  }
}
