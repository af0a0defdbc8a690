/**
 The program's main: initialise PhysicsFS, mount the executable at "/",
 open a Lua state, put the archive loader in front of package.loaders,
 run require(".") and turn what happened into the process's exit status.
 */
module Bootstrap {
  import opened LuaTable

  datatype Option<T> = None | Some(value: T)

  /** The entries of package.loaders: the archive loader, or one Lua installed itself */
  datatype Searcher = ArchiveLoader | Builtin(index: nat)

  /** How the protected call of require(".") ended */
  datatype RootRun =
    | Failed(message: string)
    /** The value require returned, as lua_isnumber/lua_tonumber read it */
    | Returned(number: Option<int>)

  /** The results of the steps main takes, in order */
  datatype Startup = Startup(fsInit: bool, selfMount: bool, root: RootRun)

  /** The teardown calls main makes before it returns */
  datatype Teardown = LuaClose | PhysfsDeinit

  /** What main does on its way out: its teardown calls, in order, and its status */
  datatype Exit = Exit(status: int, teardown: seq<Teardown>)

  /**
   The status main returns: 1 when PhysicsFS does not initialise, 2 when the
   executable cannot be mounted, 3 when require(".") raises, and otherwise
   the number the root module gave back, or 0. Only the normal path closes
   the Lua state and then deinitialises PhysicsFS.
   */
  function Shutdown(s: Startup): (e: Exit)
    ensures !s.fsInit ==> e.status == 1
    ensures s.fsInit && !s.selfMount ==> e.status == 2
    ensures s.fsInit && s.selfMount && s.root.Failed? ==> e.status == 3
    ensures s.fsInit && s.selfMount && s.root == Returned(None) ==> e.status == 0
    ensures forall n :: s.fsInit && s.selfMount && s.root == Returned(Some(n)) ==> e.status == n
    ensures s.fsInit && s.selfMount && s.root.Returned? ==> e.teardown == [LuaClose, PhysfsDeinit]
    ensures !(s.fsInit && s.selfMount && s.root.Returned?) ==> e.teardown == []
  {
    if !s.fsInit then Exit(1, [])
    else if !s.selfMount then Exit(2, [])
    else match s.root
      case Failed(_) => Exit(3, [])
      case Returned(None) => Exit(0, [LuaClose, PhysfsDeinit])
      case Returned(Some(n)) => Exit(n, [LuaClose, PhysfsDeinit])
  }

  /** A failed step decides the status; the steps after it are never taken */
  lemma FirstFailureDecides(s: Startup, t: Startup)
    requires !s.fsInit || !s.selfMount || s.root.Failed?
    requires s.fsInit == t.fsInit
    requires s.fsInit ==> s.selfMount == t.selfMount
    requires s.fsInit && s.selfMount ==> t.root.Failed?
    ensures Shutdown(s) == Shutdown(t)
  {
  }

  /**
   The status does not tell a failure from a root module that returned the
   same code: returning 1, 2 or 3 exits like the corresponding failure
   */
  lemma StatusIsAmbiguous(code: int)
    requires 1 <= code <= 3
    ensures exists s: Startup :: !s.root.Returned? && Shutdown(s).status == code
    ensures Shutdown(Startup(true, true, Returned(Some(code)))).status == code
  {
    var failure := if code == 1 then Startup(false, false, Failed(""))
                   else if code == 2 then Startup(true, false, Failed(""))
                   else Startup(true, true, Failed(""));
    assert Shutdown(failure).status == code;
  }

  /** Register the archive loader: it is tried first, then the others in their old order */
  method RegisterLoader(loaders: Table<Searcher>)
    requires loaders.Valid()
    modifies loaders
    ensures loaders.Valid()
    ensures loaders.Elements() == [ArchiveLoader] + old(loaders.Elements())
  {
    loaders.Prepend(ArchiveLoader);
  }
}
