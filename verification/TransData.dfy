/** A transaction's state, flags and target lists (trans.h). */
module TransData {
  import opened Package

  datatype State = Idle | Initialized | Prepared | Committing | Committed | Interrupted

  datatype Flags = Flags(noDeps: bool, noDepVersion: bool, noConflicts: bool, noLock: bool, needed: bool,
                         downloadOnly: bool, allDeps: bool, allExplicit: bool,
                         cascade: bool, recurse: bool, recurseAll: bool, unneeded: bool)

  /** The target lists and what each target replaces, by the target's name. */
  datatype TargetLists = TargetLists(add: seq<Pkg>, remove: seq<Pkg>, unresolvable: seq<Pkg>, removes: map<string, seq<Pkg>>)

  class Transaction {
    const flags: Flags
    var state: State
    var add: seq<Pkg>
    var remove: seq<Pkg>
    var unresolvable: seq<Pkg>
    var removes: map<string, seq<Pkg>>

    ghost function Targets(): TargetLists
      reads this
    {
      TargetLists(add, remove, unresolvable, removes)
    }

    constructor (flags: Flags)
      ensures this.flags == flags && state == Initialized
      ensures add == [] && remove == [] && unresolvable == [] && removes == map[]
    {
      this.flags, state := flags, Initialized;
      add, remove, unresolvable, removes := [], [], [], map[];
    }
  }
}
