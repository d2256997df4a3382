/** runningModules: the process-wide map from module name to the start time
    of the goroutine that last stored it. */
module Registry {

  /** A start time read from the clock; the model only stores and compares it. */
  type Time = int

  class RunRegistry {
    var entries: map<string, Time>

    constructor ()
      ensures entries == map[]
    {
      entries := map[];
    }

    /** sync.Map.Store: insert, or overwrite the start time of, `name`. */
    method Store(name: string, start: Time)
      modifies this
      ensures entries == old(entries)[name := start]
      ensures name in entries && entries[name] == start
      ensures forall k :: k != name ==> (k in entries <==> k in old(entries))
    {
      entries := entries[name := start];
    }

    /** sync.Map.Delete: remove `name`; a name that is absent is left absent. */
    method Delete(name: string)
      modifies this
      ensures entries == old(entries) - {name}
      ensures name !in entries
      ensures name !in old(entries) ==> entries == old(entries)
    {
      entries := entries - {name};
    }
  }
}
