/** The build loop of wl.js (lines 153-198): the module-level `watches`
    and `compileCount`, the `onchange` handler that compiles, prefixes,
    writes the output and reconciles the watches, and the start-up that
    runs it once. Compiling, post-processing, the clock and the file
    system come in as outcomes. Nothing serialises builds: each call of
    `OnChange` is one complete run of the handler. */
module Build {
  import opened Results
  import opened Seqs
  import opened PostProcess
  import opened Compiler
  import opened Clock
  import opened Settings
  import opened Watches

  /** Which steps of the handler run, decided by the outcomes of `compile`
      and `prefix` (wl.js:164-187). */
  datatype Plan =
    | CompileFailed(error: Error)
    | PrefixFailed(error: Error)
    | Write(css: string, reconcile: Option<seq<string>>)   // the imports to reconcile with, if any

  function PlanBuild(config: Config, compiled: Result<Compiled>, process: PostCss): (r: Plan)
    ensures compiled.Err? ==> r == CompileFailed(compiled.error)
    ensures compiled.Ok? ==>
              var prefixed := Prefix(compiled.value.css, config.applyPrefixes, config.browsers, config.compact, process);
              && (prefixed.Err? ==> r == PrefixFailed(prefixed.error))
              && (prefixed.Ok? ==> r.Write? && r.css == prefixed.value)
    ensures r.Write? && r.reconcile.Some? <==>
              r.Write? && !config.once && compiled.value.imports.Some?
    ensures r.Write? && r.reconcile.Some? ==> r.reconcile == compiled.value.imports
  {
    match compiled
    case Err(e) => CompileFailed(e)
    case Ok(Compiled(css, imports)) =>
      match Prefix(css, config.applyPrefixes, config.browsers, config.compact, process)
      case Err(e) => PrefixFailed(e)
      case Ok(out) => Write(out, if !config.once && imports.Some? then imports else None)
  }

  /** A plain CSS input (no LESS extension) never has its imports watched:
      `compile` reports no import list for it. */
  lemma PlainInputNeverReconciles(config: Config, name: string, read: Result<string>,
                                  render: Render, process: PostCss)
    requires !IsLessFile(name)
    ensures PlanBuild(config, Compile(name, read, render), process).Write? ==>
              PlanBuild(config, Compile(name, read, render), process).reconcile == None
  {
  }

  /** With prefixing off, a successful compile is always written, and the
      CSS written is exactly the compiler's, whatever `--no-compact` says. */
  lemma UnprefixedWritesCompiled(config: Config, compiled: Result<Compiled>, process: PostCss)
    requires !config.applyPrefixes && compiled.Ok?
    ensures PlanBuild(config, compiled, process).Write?
    ensures PlanBuild(config, compiled, process).css == compiled.value.css
  {
  }

  /** What the handler reports: the error, or the "Done" line with the
      build number and time stamp and the watch changes. */
  datatype Report =
    | Failed(error: Error)
    | Done(count: nat, stamp: string, added: seq<string>, removed: seq<string>)

  /** The state the script keeps between builds. */
  class Session {
    const config: Config
    const table: WatchTable       // `watches`
    const watchingRoot: bool      // the separate watch on the input (wl.js:194-197)
    var compileCount: nat
    var written: seq<string>      // every CSS text written to the output, oldest first

    ghost predicate Valid()
      reads this, table
    {
      table.Valid()
    }

    constructor (config: Config)
      ensures Valid() && fresh(table)
      ensures this.config == config && watchingRoot == !config.once
      ensures table.order == [] && table.handles == map[] && table.nextId == 0 && table.closed == []
      ensures compileCount == 0 && written == []
    {
      this.config := config;
      table := new WatchTable();
      watchingRoot := !config.once;
      compileCount := 0;
      written := [];
    }

    /** `onchange()`, given the outcome of `compile` on the input, the
        PostCSS runner and the clock reading. The output is written and the
        counter advanced only when both stages succeed; the watches are
        reconciled only then, and only outside `--once` when LESS reported
        an import list. On any error nothing changes. */
    method OnChange(compiled: Result<Compiled>, process: PostCss, now: Moment) returns (report: Report)
      requires Valid()
      modifies this, table
      ensures Valid()
      ensures var plan := PlanBuild(config, compiled, process);
              && (!plan.Write? ==>
                    && report == Failed(plan.error)
                    && written == old(written) && compileCount == old(compileCount)
                    && unchanged(table))
              && (plan.Write? ==>
                    && written == old(written) + [plan.css]
                    && compileCount == old(compileCount) + 1
                    && report.Done? && report.count == compileCount && report.stamp == Timestamp(now))
              && (plan.Write? && plan.reconcile.None? ==>
                    unchanged(table) && report.added == [] && report.removed == [])
              && (plan.Write? && plan.reconcile.Some? ==>
                    var imports := plan.reconcile.value;
                    && table.handles.Keys == Elems(imports)
                    && (forall p :: p in old(table.handles) && p in imports ==>
                          table.handles[p] == old(table.handles)[p])
                    && report.added == Fresh(imports, old(table.handles).Keys)
                    && report.removed == Select(old(table.order), imports, false)
                    && table.order == Select(old(table.order), imports, true) + report.added
                    && (forall k :: 0 <= k < |report.added| ==>
                          report.added[k] in table.handles
                          && table.handles[report.added[k]] == Handle(old(table.nextId) + k, report.added[k]))
                    && table.nextId == old(table.nextId) + |report.added|
                    && (forall p :: p in report.removed ==> p in old(table.handles))
                    && table.closed == old(table.closed) + HandlesFor(report.removed, old(table.handles)))
    {
      var plan := PlanBuild(config, compiled, process);
      match plan
      case CompileFailed(e) =>
        report := Failed(e);
      case PrefixFailed(e) =>
        report := Failed(e);
      case Write(css, reconcile) =>
        written := written + [css];
        var added, removed := [], [];
        if reconcile.Some? {
          added, removed := table.UpdateWatches(reconcile.value);
        }
        compileCount := compileCount + 1;
        report := Done(compileCount, Timestamp(now), added, removed);
    }
  }

  /** The start-up (wl.js:153-201): without the input file nothing is set
      up and nothing is built; otherwise a session starts with no watches
      and the handler runs once at once. */
  method Launch(config: Config, inputExists: bool, compiled: Result<Compiled>, process: PostCss, now: Moment)
    returns (session: Session?, first: Option<Report>)
    ensures session == null <==> !inputExists
    ensures first.Some? <==> inputExists
    ensures session != null ==>
              && fresh(session) && fresh(session.table) && session.Valid()
              && session.config == config && session.watchingRoot == !config.once
              && session.table.closed == []
              && var plan := PlanBuild(config, compiled, process);
              && (!plan.Write? ==>
                    && first == Some(Failed(plan.error))
                    && session.written == [] && session.compileCount == 0
                    && session.table.order == [] && session.table.handles == map[]
                    && session.table.nextId == 0)
              && (plan.Write? ==>
                    && session.written == [plan.css] && session.compileCount == 1
                    && first.Some? && first.value.Done? && first.value.count == 1
                    && first.value.stamp == Timestamp(now) && first.value.removed == [])
              && (plan.Write? && plan.reconcile.None? ==>
                    && first.value.added == []
                    && session.table.order == [] && session.table.handles == map[]
                    && session.table.nextId == 0)
              && (plan.Write? && plan.reconcile.Some? ==>
                    var imports := plan.reconcile.value;
                    && first.value.added == Fresh(imports, {})
                    && session.table.order == first.value.added
                    && session.table.nextId == |first.value.added|
                    && session.table.handles.Keys == Elems(imports)
                    && (forall k :: 0 <= k < |first.value.added| ==>
                          first.value.added[k] in session.table.handles
                          && session.table.handles[first.value.added[k]] == Handle(k, first.value.added[k])))
  {
    if !inputExists {
      session, first := null, None;
    } else {
      session := new Session(config);
      assert session.table.handles.Keys == {};
      var report := session.OnChange(compiled, process, now);
      first := Some(report);
      ghost var plan := PlanBuild(config, compiled, process);
      if plan.Write? && plan.reconcile.Some? {
        var imports := plan.reconcile.value;
        assert Select([], imports, true) == [] && Select([], imports, false) == [];
        assert HandlesFor([], map[]) == [];
      }
    }
  }
}
