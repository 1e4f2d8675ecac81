/** Model of Xapian::Database::check and reserve_doclens
    (xapian-core/backends/dbcheck.cc).

    The file system is a set of existing paths; opening a database, reading a
    version file, checking a changeset and checking one table are oracles in
    an Env value.  What the dispatcher does is recorded as a trace of events:
    the text it writes to the output stream and the calls it makes to its
    collaborators, in order. */
module DbCheck {
  import opened Common

  // ---------------------------------------------------------------------
  // Constants

  /** Xapian::docid: an unsigned 32-bit document id. */
  type DocId = x: nat | x <= 0xFFFF_FFFF

  /** static_cast<Xapian::docid>(-1): the "unknown last docid" sentinel. */
  const MAX_DOCID: DocId := 0xFFFF_FFFF

  /** sizeof(Xapian::termcount): an unsigned 32-bit count. */
  const TERMCOUNT_SIZE: nat := 4

  /** The ceiling on the document-length scratch vector: 1 GiB. */
  const DOCLENS_MEMORY_LIMIT: nat := 0x4000_0000

  /** Xapian::DBCHECK_FIX, the only option bit that is not about output. */
  const DBCHECK_FIX: bv32 := 16

  const CHERT_TABLES: seq<string> :=
    ["record", "termlist", "postlist", "position", "spelling", "synonym"]
  const GLASS_TABLES: seq<string> :=
    ["docdata", "termlist", "postlist", "position", "spelling", "synonym"]

  const CHERT_DISABLED := "Chert database support isn't enabled"
  const GLASS_DISABLED := "Glass database support isn't enabled"
  const FLINT_REMOVED := "Flint database support was removed in Xapian 1.3.0"
  const BRASS_REMOVED := "Brass database support was removed in Xapian 1.3.2"
  const QUARTZ_REMOVED := "Quartz database support was removed in Xapian 1.1.0"
  const NOT_A_DATABASE := "Not a Xapian database or database table"

  const DOCLENS_TOO_BIG :=
    "Cross-checking document lengths between the postlist and termlist tables would use more than 1GB of memory, so skipping that check\n"
  const DOCLENS_NO_MEMORY :=
    "Couldn't allocate enough memory for cross-checking document lengths between the postlist and termlist tables, so skipping that check\n"
  const DOCLENS_NO_ELEMENTS :=
    "Couldn't allocate enough elements for cross-checking document lengths between the postlist and termlist tables, so skipping that check\n"
  const NOT_PRESENT := "Not present.\n"
  const LAZILY_CREATED := "Lazily created, and not yet used.\n"

  function OpenFailureMessage(description: string): string
  {
    "Database couldn't be opened for reading: " + description + "\nContinuing check anyway\n"
  }

  // ---------------------------------------------------------------------
  // The environment: file system, build flags and collaborators

  datatype Backend = Chert | Glass

  /** Outcome of opening a ChertDatabase and asking it for its last docid
      and revision. */
  datatype ChertOpen = ChertOpened(lastDocid: DocId, revision: nat)
                     | ChertOpenFailed(description: string)

  /** Outcome of GlassVersion::read on a directory. */
  datatype GlassVersionRead = VersionRead(revision: nat, lastDocid: DocId)
                            | VersionReadFailed(description: string)

  /** Outcome of vector::reserve: success, std::bad_alloc or std::length_error. */
  datatype Alloc = AllocOk | BadAlloc | LengthError

  /** The arguments the dispatcher passes to check_chert_table or
      check_glass_table.  revision is the version handle: None for the NULL
      revision pointer of a single chert table. */
  datatype TableCall = TableCall(backend: Backend, table: string, location: string,
                                 revision: Option<nat>, opts: bv32, lastDocid: DocId)

  datatype Env = Env(
    files: set<string>,                       // paths that exist
    chertEnabled: bool,                       // XAPIAN_HAS_CHERT_BACKEND
    glassEnabled: bool,                       // XAPIAN_HAS_GLASS_BACKEND
    chertOpen: string -> ChertOpen,           // ChertDatabase(path)
    glassOpenFailure: string -> Option<string>, // Xapian::Database(path) throwing
    glassVersion: string -> GlassVersionRead, // GlassVersion(dir).read(), keyed by the path as given, unrelated to Exists
    changesetFailure: string -> Option<string>, // GlassChanges::check(file) throwing
    chertVersionValid: string -> bool,        // ChertVersion::read_and_check not throwing
    alloc: Alloc,                             // doclens.reserve(...)
    tableErrors: TableCall -> nat)            // the count a table check returns

  /** What the dispatcher does, in order. */
  datatype Event =
    | Say(text: string)                 // text written to the output stream
    | Advise(advice: Advice)            // AdviceText(advice) written to the output stream
    | CheckTable(call: TableCall)
    | CheckChangeset(file: string)
    | ReadAndCheckVersion(dir: string)  // ChertVersion::read_and_check
    | RecreateVersion(dir: string)      // ChertVersion::create
  {
    /** Whether the event writes to the output stream. */
    predicate Writes()
    {
      Say? || Advise?
    }
  }

  /** The three advisory lines reserve_doclens can write. */
  datatype Advice = TooBig | NoMemory | NoElements

  function AdviceText(advice: Advice): string
  {
    match advice
    case TooBig => DOCLENS_TOO_BIG
    case NoMemory => DOCLENS_NO_MEMORY
    case NoElements => DOCLENS_NO_ELEMENTS
  }

  datatype Error =
    | FeatureUnavailableError(message: string)
    | DatabaseError(message: string)
    | CollaboratorError(description: string)   // thrown by a collaborator and passed on

  /** check() either returns an error count or throws. */
  datatype Outcome = Count(errors: nat) | Raised(error: Error)

  // ---------------------------------------------------------------------
  // Paths

  /** The file system treats a run of '/' like a single '/'. */
  function CollapseSlashes(p: string): (r: string)
    ensures |r| <= |p|
    decreases |p|
  {
    if |p| <= 1 then p
    else if p[0] == '/' && p[1] == '/' then CollapseSlashes(p[1..])
    else [p[0]] + CollapseSlashes(p[1..])
  }

  /** stat() or file_exists() succeeding on p. */
  predicate Exists(files: set<string>, p: string)
  {
    CollapseSlashes(p) in files
  }

  /** str(r) for a revision number: its decimal digits. */
  function Decimal(n: nat): (r: string)
    ensures r != []
    ensures forall i :: 0 <= i < |r| ==> '0' <= r[i] <= '9'
    decreases n
  {
    if n < 10 then [('0' as int + n) as char]
    else Decimal(n / 10) + [('0' as int + n % 10) as char]
  }

  // ---------------------------------------------------------------------
  // Options

  /** The options that reach the table checks: with no output stream every
      bit except DBCHECK_FIX is cleared. */
  function EffectiveOptions(opts: bv32, hasOut: bool): (r: bv32)
    ensures hasOut ==> r == opts
    ensures !hasOut ==> r & !DBCHECK_FIX == 0
    ensures r & DBCHECK_FIX == opts & DBCHECK_FIX
  {
    if hasOut then opts else opts & DBCHECK_FIX
  }

  // ---------------------------------------------------------------------
  // Document-length scratch vector

  /** The vector<termcount> of document lengths; only its reserved capacity
      is visible to the dispatcher (the table checks fill it). */
  class DocLengths {
    var capacity: nat

    constructor ()
      ensures capacity == 0
    {
      capacity := 0;
    }
  }

  predicate DoclensTooBig(lastDocid: DocId)
  {
    lastDocid >= DOCLENS_MEMORY_LIMIT / TERMCOUNT_SIZE
  }

  /** The guard in reserve_doclens means: lastDocid + 1 lengths would need
      more than 1 GiB. */
  lemma DoclensTooBigMeansOverLimit(lastDocid: DocId)
    ensures DoclensTooBig(lastDocid) <==> (lastDocid + 1) * TERMCOUNT_SIZE > DOCLENS_MEMORY_LIMIT
  {
  }

  /** The advisory line reserve_doclens writes, if any. */
  function ReserveAdvice(lastDocid: DocId, alloc: Alloc): Option<Advice>
  {
    if DoclensTooBig(lastDocid) then Some(TooBig)
    else match alloc
      case AllocOk => None
      case BadAlloc => Some(NoMemory)
      case LengthError => Some(NoElements)
  }

  function SayIf(hasOut: bool, advice: Option<Advice>): seq<Event>
  {
    if hasOut && advice.Some? then [Advise(advice.value)] else []
  }

  /** reserve_doclens: reserve room for lastDocid + 1 lengths unless that
      would pass 1 GiB or the allocation fails; either way nothing is thrown
      and at most one advisory line is written. */
  method ReserveDoclens(doclens: DocLengths, lastDocid: DocId, hasOut: bool, alloc: Alloc)
    returns (said: seq<Event>)
    modifies doclens
    ensures said == SayIf(hasOut, ReserveAdvice(lastDocid, alloc))
    ensures |said| == (if hasOut && (DoclensTooBig(lastDocid) || alloc != AllocOk) then 1 else 0)
    ensures ReserveAdvice(lastDocid, alloc).Some? ==> doclens.capacity == old(doclens.capacity)
    ensures ReserveAdvice(lastDocid, alloc).None? ==>
      doclens.capacity >= lastDocid + 1 && doclens.capacity >= old(doclens.capacity)
  {
    said := [];
    if lastDocid >= DOCLENS_MEMORY_LIMIT / TERMCOUNT_SIZE {
      if hasOut {
        said := said + [Advise(TooBig)];
      }
      return;
    }
    match alloc {
      case AllocOk =>
        if doclens.capacity < lastDocid + 1 {
          doclens.capacity := lastDocid + 1;
        }
      case BadAlloc =>
        if hasOut {
          said := said + [Advise(NoMemory)];
        }
      case LengthError =>
        if hasOut {
          said := said + [Advise(NoElements)];
        }
    }
  }

  // ---------------------------------------------------------------------
  // Trace helpers

  function CallsOf(trace: seq<Event>): (r: seq<TableCall>)
    decreases |trace|
  {
    if trace == [] then []
    else CallsOf(trace[..|trace| - 1])
         + (if trace[|trace| - 1].CheckTable? then [trace[|trace| - 1].call] else [])
  }

  lemma {:induction false} CallsOfAppend(a: seq<Event>, b: seq<Event>)
    ensures CallsOf(a + b) == CallsOf(a) + CallsOf(b)
    decreases |b|
  {
    if b == [] {
      assert a + b == a;
    } else {
      var b' := b[..|b| - 1];
      assert (a + b)[..|a + b| - 1] == a + b';
      CallsOfAppend(a, b');
    }
  }

  predicate Silent(trace: seq<Event>)
  {
    forall i :: 0 <= i < |trace| ==> !trace[i].Writes()
  }

  /** The sum of the counts returned by a sequence of table checks. */
  function SumErrors(f: TableCall -> nat, calls: seq<TableCall>): nat
    decreases |calls|
  {
    if calls == [] then 0
    else SumErrors(f, calls[..|calls| - 1]) + f(calls[|calls| - 1])
  }

  lemma SumErrorsSnoc(f: TableCall -> nat, calls: seq<TableCall>, c: TableCall)
    ensures SumErrors(f, calls + [c]) == SumErrors(f, calls) + f(c)
  {
    assert (calls + [c])[..|calls|] == calls;
  }

  /** No new errors from a pass exactly when every table check returned 0. */
  lemma {:induction false} SumErrorsZero(f: TableCall -> nat, calls: seq<TableCall>)
    ensures SumErrors(f, calls) == 0 <==> forall i :: 0 <= i < |calls| ==> f(calls[i]) == 0
    decreases |calls|
  {
    if calls != [] {
      var init := calls[..|calls| - 1];
      SumErrorsZero(f, init);
      assert forall i :: 0 <= i < |init| ==> init[i] == calls[i];
    }
  }

  // ---------------------------------------------------------------------
  // Chert directory

  /** record and postlist always exist; the other chert tables are created
      lazily, so an absent .DB file means "not yet used". */
  predicate ChertTableRequired(name: string)
  {
    name == "record" || name == "postlist"
  }

  predicate ChertTableSkipped(files: set<string>, path: string, name: string)
  {
    !ChertTableRequired(name) && !Exists(files, path + "/" + name + ".DB")
  }

  function ChertCall(path: string, name: string, revision: nat, opts: bv32, lastDocid: DocId): TableCall
  {
    TableCall(Chert, name, path + "/" + name, Some(revision), opts, lastDocid)
  }

  /** The table checks made for the given chert tables, in order. */
  function ChertCalls(files: set<string>, path: string, names: seq<string>,
                      revision: nat, opts: bv32, lastDocid: DocId): seq<TableCall>
    decreases |names|
  {
    if names == [] then []
    else
      var name := names[|names| - 1];
      ChertCalls(files, path, names[..|names| - 1], revision, opts, lastDocid)
      + (if ChertTableSkipped(files, path, name) then []
         else [ChertCall(path, name, revision, opts, lastDocid)])
  }

  lemma ChertLoopSnoc(files: set<string>, path: string, names: seq<string>, t: string,
                      revision: nat, opts: bv32, lastDocid: DocId, hasOut: bool)
    ensures ChertCalls(files, path, names + [t], revision, opts, lastDocid)
            == ChertCalls(files, path, names, revision, opts, lastDocid)
               + (if ChertTableSkipped(files, path, t) then [] else [ChertCall(path, t, revision, opts, lastDocid)])
    ensures ChertLoopEvents(files, path, names + [t], revision, opts, lastDocid, hasOut)
            == ChertLoopEvents(files, path, names, revision, opts, lastDocid, hasOut)
               + ChertTableEvents(files, path, t, revision, opts, lastDocid, hasOut)
  {
    assert (names + [t])[..|names|] == names;
  }

  /** One more chert table adds its error count unless it is skipped. */
  lemma ChertSumSnoc(f: TableCall -> nat, files: set<string>, path: string, names: seq<string>, t: string,
                     revision: nat, opts: bv32, lastDocid: DocId)
    ensures SumErrors(f, ChertCalls(files, path, names + [t], revision, opts, lastDocid))
            == SumErrors(f, ChertCalls(files, path, names, revision, opts, lastDocid))
               + (if ChertTableSkipped(files, path, t) then 0 else f(ChertCall(path, t, revision, opts, lastDocid)))
  {
    var prev := ChertCalls(files, path, names, revision, opts, lastDocid);
    ChertLoopSnoc(files, path, names, t, revision, opts, lastDocid, false);
    if ChertTableSkipped(files, path, t) {
      assert prev + [] == prev;
    } else {
      SumErrorsSnoc(f, prev, ChertCall(path, t, revision, opts, lastDocid));
    }
  }

  /** What the loop does for one chert table. */
  function ChertTableEvents(files: set<string>, path: string, name: string,
                            revision: nat, opts: bv32, lastDocid: DocId, hasOut: bool): seq<Event>
  {
    (if hasOut then [Say(name + ":\n")] else [])
    + (if ChertTableSkipped(files, path, name) then
         (if hasOut then [Say(if name == "termlist" then NOT_PRESENT else LAZILY_CREATED), Say("\n")]
          else [])
       else [CheckTable(ChertCall(path, name, revision, opts, lastDocid))])
  }

  function ChertLoopEvents(files: set<string>, path: string, names: seq<string>,
                           revision: nat, opts: bv32, lastDocid: DocId, hasOut: bool): seq<Event>
    decreases |names|
  {
    if names == [] then []
    else ChertLoopEvents(files, path, names[..|names| - 1], revision, opts, lastDocid, hasOut)
         + ChertTableEvents(files, path, names[|names| - 1], revision, opts, lastDocid, hasOut)
  }

  /** The table checks in a chert loop trace are exactly ChertCalls. */
  lemma {:induction false} ChertLoopCalls(files: set<string>, path: string, names: seq<string>,
                                          revision: nat, opts: bv32, lastDocid: DocId, hasOut: bool)
    ensures CallsOf(ChertLoopEvents(files, path, names, revision, opts, lastDocid, hasOut))
            == ChertCalls(files, path, names, revision, opts, lastDocid)
    decreases |names|
  {
    if names != [] {
      var name := names[|names| - 1];
      ChertLoopCalls(files, path, names[..|names| - 1], revision, opts, lastDocid, hasOut);
      var head := if hasOut then [Say(name + ":\n")] else [];
      var tail := if ChertTableSkipped(files, path, name) then
          (if hasOut then [Say(if name == "termlist" then NOT_PRESENT else LAZILY_CREATED), Say("\n")] else [])
        else [CheckTable(ChertCall(path, name, revision, opts, lastDocid))];
      CallsOfAppend(head, tail);
      CallsOfAppend(ChertLoopEvents(files, path, names[..|names| - 1], revision, opts, lastDocid, hasOut),
                    head + tail);
      assert CallsOf(head) == [] by {
        if hasOut { assert head[..0] == []; }
      }
      if ChertTableSkipped(files, path, name) && hasOut {
        assert tail[..1] == [tail[0]];
        assert tail[..1][..0] == [];
      } else if !ChertTableSkipped(files, path, name) {
        assert tail[..0] == [];
      }
    }
  }

  /** The chert open step: the last docid and revision used by the loop, and
      how many errors it adds. */
  function ChertLastDocid(o: ChertOpen): DocId
  {
    if o.ChertOpened? then o.lastDocid else MAX_DOCID
  }

  function ChertRevision(o: ChertOpen): nat
  {
    if o.ChertOpened? then o.revision else 0
  }

  function OpenPenalty(failed: bool): nat
  {
    if failed then 1 else 0
  }

  /** One pass of the chert table loop: a lazily created table whose .DB
      file is absent is reported and adds nothing; any other table is
      checked. */
  method CheckChertTable(env: Env, path: string, t: string, rev: nat, opts: bv32, lastDocid: DocId, hasOut: bool)
    returns (added: nat, events: seq<Event>)
    ensures added == (if ChertTableSkipped(env.files, path, t) then 0
                      else env.tableErrors(ChertCall(path, t, rev, opts, lastDocid)))
    ensures events == ChertTableEvents(env.files, path, t, rev, opts, lastDocid, hasOut)
  {
    added := 0;
    events := [];
    var table := path + "/" + t;
    if hasOut {
      events := events + [Say(t + ":\n")];
    }
    if t != "record" && t != "postlist" {
      // Only record and postlist must be there; an absent .DB file of the
      // others is reported and skipped.
      if !Exists(env.files, table + ".DB") {
        if hasOut {
          if t == "termlist" {
            events := events + [Say(NOT_PRESENT)];
          } else {
            events := events + [Say(LAZILY_CREATED)];
          }
          events := events + [Say("\n")];
        }
        return;
      }
    }
    var call := TableCall(Chert, t, table, Some(rev), opts, lastDocid);
    events := events + [CheckTable(call)];
    added := env.tableErrors(call);
  }

  /** The table loop of a chert directory check: every table in order, adding up what the checks return. */
  method CheckChertTables(env: Env, path: string, rev: nat, opts: bv32, lastDocid: DocId, hasOut: bool)
    returns (added: nat, events: seq<Event>)
    ensures added == SumErrors(env.tableErrors, ChertCalls(env.files, path, CHERT_TABLES, rev, opts, lastDocid))
    ensures events == ChertLoopEvents(env.files, path, CHERT_TABLES, rev, opts, lastDocid, hasOut)
  {
    added := 0;
    events := [];
    for k := 0 to |CHERT_TABLES|
      invariant added
        == SumErrors(env.tableErrors, ChertCalls(env.files, path, CHERT_TABLES[..k], rev, opts, lastDocid))
      invariant events == ChertLoopEvents(env.files, path, CHERT_TABLES[..k], rev, opts, lastDocid, hasOut)
    {
      var t := CHERT_TABLES[k];
      assert CHERT_TABLES[..k + 1] == CHERT_TABLES[..k] + [t];
      ChertLoopSnoc(env.files, path, CHERT_TABLES[..k], t, rev, opts, lastDocid, hasOut);
      ChertSumSnoc(env.tableErrors, env.files, path, CHERT_TABLES[..k], t, rev, opts, lastDocid);
      var n, e := CheckChertTable(env, path, t, rev, opts, lastDocid, hasOut);
      added := added + n;
      events := events + e;
    }
    assert CHERT_TABLES[..|CHERT_TABLES|] == CHERT_TABLES;
  }

  /** Opening a chert directory: on success the last docid and revision
      are read and the document lengths reserved; on failure the error is
      reported and counted, and the last docid stays at its maximum so that
      no docid is reported as out of range. */
  method OpenChert(env: Env, path: string, hasOut: bool, doclens: DocLengths)
    returns (penalty: nat, lastDocid: DocId, rev: nat, opening: seq<Event>)
    modifies doclens
    ensures penalty == OpenPenalty(env.chertOpen(path).ChertOpenFailed?)
    ensures lastDocid == ChertLastDocid(env.chertOpen(path))
    ensures rev == ChertRevision(env.chertOpen(path))
    ensures forall e :: e in opening ==> e.Writes()
    ensures !hasOut ==> opening == []
    ensures env.chertOpen(path).ChertOpenFailed? ==> doclens.capacity == old(doclens.capacity)
    ensures env.chertOpen(path).ChertOpened? && ReserveAdvice(env.chertOpen(path).lastDocid, env.alloc).None?
            ==> doclens.capacity >= env.chertOpen(path).lastDocid + 1
    ensures env.chertOpen(path).ChertOpened? && ReserveAdvice(env.chertOpen(path).lastDocid, env.alloc).Some?
            ==> doclens.capacity == old(doclens.capacity)
  {
    // Defaults for a database that does not open: the sentinel docid and
    // revision 0.
    lastDocid := MAX_DOCID;
    rev := 0;
    penalty := 0;
    opening := [];
    match env.chertOpen(path) {
      case ChertOpened(last, r) =>
        lastDocid := last;
        opening := ReserveDoclens(doclens, lastDocid, hasOut, env.alloc);
        rev := r;
      case ChertOpenFailed(description) =>
        if hasOut {
          opening := [Say(OpenFailureMessage(description))];
        }
        penalty := 1;
    }
  }

  /** A stretch of trace with no table check contributes no calls. */
  lemma {:induction false} CallsOfNone(s: seq<Event>)
    requires forall e :: e in s ==> !e.CheckTable?
    ensures CallsOf(s) == []
    decreases |s|
  {
    if s != [] {
      assert s[|s| - 1] in s;
      CallsOfNone(s[..|s| - 1]);
    }
  }

  /** The trace of a directory check is an opening stretch of messages, the
      table loop and a closing stretch of version-file work: its calls are
      those of the loop. */
  lemma JoinCalls(opening: seq<Event>, loop: seq<Event>, fix: seq<Event>)
    requires forall e :: e in opening ==> e.Writes()
    requires forall e :: e in fix ==> e.ReadAndCheckVersion? || e.RecreateVersion?
    ensures CallsOf(opening + loop + fix) == CallsOf(loop)
  {
    CallsOfNone(opening);
    CallsOfNone(fix);
    CallsOfAppend(opening, loop);
    CallsOfAppend(opening + loop, fix);
  }

  /** Version-file events of such a trace all come from its closing stretch. */
  lemma JoinVersionEvents(opening: seq<Event>, loop: seq<Event>, fix: seq<Event>, e: Event)
    requires forall e :: e in opening ==> e.Writes()
    requires forall e :: e in loop ==> e.Writes() || e.CheckTable?
    requires e.ReadAndCheckVersion? || e.RecreateVersion?
    ensures e in opening + loop + fix <==> e in fix
  {
    assert e in opening + loop + fix <==> e in opening || e in loop || e in fix;
  }

  /** With no opening messages and a silent loop, the whole trace is silent. */
  lemma JoinSilent(loop: seq<Event>, fix: seq<Event>)
    requires forall e :: e in fix ==> e.ReadAndCheckVersion? || e.RecreateVersion?
    requires Silent(loop)
    ensures Silent([] + loop + fix)
  {
    var t := [] + loop + fix;
    forall i | 0 <= i < |t|
      ensures !t[i].Writes()
    {
      if i >= |loop| {
        assert t[i] == fix[i - |loop|];
        assert t[i] in fix;
      }
    }
  }

  /** The chert branch of Database::check on a database directory: open it,
      check each table in turn, and when fixing is asked for and no table
      had an error, check the version file and recreate it if it is bad. */
  method CheckChertDirectory(env: Env, path: string, opts: bv32, hasOut: bool, doclens: DocLengths)
    returns (errors: nat, trace: seq<Event>)
    modifies doclens
    ensures var o := env.chertOpen(path);
      var calls := ChertCalls(env.files, path, CHERT_TABLES, ChertRevision(o), opts, ChertLastDocid(o));
      && errors == OpenPenalty(o.ChertOpenFailed?) + SumErrors(env.tableErrors, calls)
      && CallsOf(trace) == calls
      && (!hasOut ==> Silent(trace))
      && (ReadAndCheckVersion(path) in trace
          <==> opts & DBCHECK_FIX != 0 && SumErrors(env.tableErrors, calls) == 0)
      && (RecreateVersion(path) in trace
          <==> opts & DBCHECK_FIX != 0 && SumErrors(env.tableErrors, calls) == 0
               && !env.chertVersionValid(path))
    ensures env.chertOpen(path).ChertOpenFailed? ==> doclens.capacity == old(doclens.capacity)
    ensures env.chertOpen(path).ChertOpened? && ReserveAdvice(env.chertOpen(path).lastDocid, env.alloc).None?
            ==> doclens.capacity >= env.chertOpen(path).lastDocid + 1
    ensures env.chertOpen(path).ChertOpened? && ReserveAdvice(env.chertOpen(path).lastDocid, env.alloc).Some?
            ==> doclens.capacity == old(doclens.capacity)
  {
    var penalty, lastDocid, rev, opening := OpenChert(env, path, hasOut, doclens);
    errors := penalty;
    var preTableCheckErrors := errors;
    var added, loop := CheckChertTables(env, path, rev, opts, lastDocid, hasOut);
    errors := errors + added;
    var fix: seq<Event> := [];
    if errors == preTableCheckErrors && opts & DBCHECK_FIX != 0 {
      // Clean tables and DBCHECK_FIX: read the version file, and write a
      // new one when it is not valid.
      fix := [ReadAndCheckVersion(path)];
      if !env.chertVersionValid(path) {
        fix := fix + [RecreateVersion(path)];
      }
    }
    trace := opening + loop + fix;
    ChertTrace(env, path, opts, hasOut, rev, lastDocid, opening, loop, fix, added == 0);
  }

  /** The trace of a chert directory check: the calls are those of the table
      loop, it is silent without an output stream, and the version file is
      read (and recreated when bad) exactly when fixing was asked for and
      the tables were clean. */
  lemma ChertTrace(env: Env, path: string, opts: bv32, hasOut: bool, rev: nat, lastDocid: DocId,
                   opening: seq<Event>, loop: seq<Event>, fix: seq<Event>, clean: bool)
    requires forall e :: e in opening ==> e.Writes()
    requires !hasOut ==> opening == []
    requires loop == ChertLoopEvents(env.files, path, CHERT_TABLES, rev, opts, lastDocid, hasOut)
    requires fix == if clean && opts & DBCHECK_FIX != 0
                    then [ReadAndCheckVersion(path)] + (if !env.chertVersionValid(path) then [RecreateVersion(path)] else [])
                    else []
    ensures var t := opening + loop + fix;
      && CallsOf(t) == ChertCalls(env.files, path, CHERT_TABLES, rev, opts, lastDocid)
      && (!hasOut ==> Silent(t))
      && (ReadAndCheckVersion(path) in t <==> opts & DBCHECK_FIX != 0 && clean)
      && (RecreateVersion(path) in t <==> opts & DBCHECK_FIX != 0 && clean && !env.chertVersionValid(path))
  {
    ChertLoopCalls(env.files, path, CHERT_TABLES, rev, opts, lastDocid, hasOut);
    ChertLoopNoVersionEvents(env.files, path, CHERT_TABLES, rev, opts, lastDocid, hasOut);
    JoinCalls(opening, loop, fix);
    JoinVersionEvents(opening, loop, fix, ReadAndCheckVersion(path));
    JoinVersionEvents(opening, loop, fix, RecreateVersion(path));
    if !hasOut {
      JoinSilent(loop, fix);
    }
  }

  lemma {:induction false} ChertLoopNoVersionEvents(files: set<string>, path: string, names: seq<string>,
                                                    revision: nat, opts: bv32, lastDocid: DocId, hasOut: bool)
    ensures forall e :: e in ChertLoopEvents(files, path, names, revision, opts, lastDocid, hasOut)
                        ==> e.Writes() || e.CheckTable?
    ensures !hasOut ==> Silent(ChertLoopEvents(files, path, names, revision, opts, lastDocid, hasOut))
    decreases |names|
  {
    if names != [] {
      ChertLoopNoVersionEvents(files, path, names[..|names| - 1], revision, opts, lastDocid, hasOut);
    }
  }

  // ---------------------------------------------------------------------
  // Glass directory

  /** The value of a string of decimal digits. */
  function DigitsValue(s: string): nat
    decreases |s|
  {
    if s == [] then 0
    else DigitsValue(s[..|s| - 1]) * 10
         + (if '0' <= s[|s| - 1] <= '9' then s[|s| - 1] as int - '0' as int else 0)
  }

  /** str() loses nothing: reading the digits back gives the number. */
  lemma {:induction false} DecimalRoundTrip(n: nat)
    ensures DigitsValue(Decimal(n)) == n
    decreases n
  {
    if n >= 10 {
      var d := Decimal(n / 10);
      DecimalRoundTrip(n / 10);
      assert (d + [('0' as int + n % 10) as char])[..|d|] == d;
    }
  }

  /** The changeset file for revision r of a glass database at path. */
  function ChangesFile(path: string, r: nat): string
  {
    path + "/changes" + Decimal(r)
  }

  lemma ChangesFileInjective(path: string, r: nat, r': nat)
    requires ChangesFile(path, r) == ChangesFile(path, r')
    ensures r == r'
  {
    var k := |path + "/changes"|;
    assert Decimal(r) == ChangesFile(path, r)[k..];
    assert Decimal(r') == ChangesFile(path, r')[k..];
    DecimalRoundTrip(r);
    DecimalRoundTrip(r');
  }

  /** The existing changeset files for revisions hi, hi - 1, ..., lo + 1,
      newest first. */
  function ChangesetRange(files: set<string>, path: string, hi: nat, lo: nat): seq<string>
    decreases hi - lo
  {
    if lo >= hi then []
    else ChangesetRange(files, path, hi, lo + 1)
         + (if Exists(files, ChangesFile(path, lo + 1)) then [ChangesFile(path, lo + 1)] else [])
  }

  /** The changeset pass visits the changes file of a revision exactly when
      that revision is in range and the file exists. */
  lemma {:induction false} ChangesetRangeMembers(files: set<string>, path: string, hi: nat, lo: nat, r: nat)
    ensures ChangesFile(path, r) in ChangesetRange(files, path, hi, lo)
            <==> lo < r <= hi && Exists(files, ChangesFile(path, r))
    decreases hi - lo
  {
    if lo < hi {
      ChangesetRangeMembers(files, path, hi, lo + 1, r);
      if ChangesFile(path, r) == ChangesFile(path, lo + 1) {
        ChangesFileInjective(path, r, lo + 1);
      }
    }
  }

  /** The changeset pass goes from the newest revision down: a file listed
      before another has the higher revision. */
  lemma {:induction false} ChangesetRangeDescending(files: set<string>, path: string, hi: nat, lo: nat,
                                                    i: nat, j: nat, ri: nat, rj: nat)
    requires i < j < |ChangesetRange(files, path, hi, lo)|
    requires ChangesetRange(files, path, hi, lo)[i] == ChangesFile(path, ri)
    requires ChangesetRange(files, path, hi, lo)[j] == ChangesFile(path, rj)
    ensures ri > rj
    decreases hi - lo
  {
    var rest := ChangesetRange(files, path, hi, lo + 1);
    if j < |rest| {
      ChangesetRangeDescending(files, path, hi, lo + 1, i, j, ri, rj);
    } else {
      ChangesFileInjective(path, rj, lo + 1);
      ChangesetRangeMembers(files, path, hi, lo + 1, ri);
      assert rest[i] in rest;
    }
  }

  function ChangesetEvents(fs: seq<string>): (r: seq<Event>)
    ensures |r| == |fs|
    ensures forall i :: 0 <= i < |fs| ==> r[i] == CheckChangeset(fs[i])
  {
    seq(|fs|, i requires 0 <= i < |fs| => CheckChangeset(fs[i]))
  }

  /** The index of the first changeset whose check throws. */
  function FirstFailing(fail: string -> Option<string>, fs: seq<string>): (r: Option<nat>)
    ensures r.Some? ==> r.value < |fs| && fail(fs[r.value]).Some?
    ensures r.Some? ==> forall j :: 0 <= j < r.value ==> fail(fs[j]).None?
    ensures r.None? ==> forall j :: 0 <= j < |fs| ==> fail(fs[j]).None?
    decreases |fs|
  {
    if fs == [] then None
    else
      var earlier := FirstFailing(fail, fs[..|fs| - 1]);
      if earlier.Some? then earlier
      else if fail(fs[|fs| - 1]).Some? then Some(|fs| - 1)
      else None
  }

  /** The changeset pass of a glass directory check: from the newest
      revision down to 1, check each changes file that exists; the first
      check that throws ends the whole check. */
  method CheckChangesets(env: Env, path: string, revision: nat)
    returns (failure: Option<string>, events: seq<Event>)
    ensures var fs := ChangesetRange(env.files, path, revision, 0);
      match FirstFailing(env.changesetFailure, fs)
      case None => failure == None && events == ChangesetEvents(fs)
      case Some(i) => failure == env.changesetFailure(fs[i]) && events == ChangesetEvents(fs[..i + 1])
  {
    failure := None;
    events := [];
    var r: nat := revision;
    while r != 0
      invariant r <= revision && failure == None
      invariant FirstFailing(env.changesetFailure, ChangesetRange(env.files, path, revision, r)) == None
      invariant events == ChangesetEvents(ChangesetRange(env.files, path, revision, r))
    {
      failure, events := ChangesetStep(env, path, revision, r, events);
      if failure.Some? {
        return;
      }
      r := r - 1;
    }
  }

  /** One turn of the changeset loop at revision r: check the changes file
      if it exists; a failure there is the first failure of the whole
      pass. */
  method ChangesetStep(env: Env, path: string, revision: nat, r: nat, events: seq<Event>)
    returns (failure: Option<string>, events': seq<Event>)
    requires 0 < r <= revision
    requires FirstFailing(env.changesetFailure, ChangesetRange(env.files, path, revision, r)) == None
    requires events == ChangesetEvents(ChangesetRange(env.files, path, revision, r))
    ensures failure.None? ==>
      && FirstFailing(env.changesetFailure, ChangesetRange(env.files, path, revision, r - 1)) == None
      && events' == ChangesetEvents(ChangesetRange(env.files, path, revision, r - 1))
    ensures failure.Some? ==>
      var fs := ChangesetRange(env.files, path, revision, 0);
      var i := |ChangesetRange(env.files, path, revision, r)|;
      && FirstFailing(env.changesetFailure, fs) == Some(i)
      && failure == env.changesetFailure(fs[i]) && events' == ChangesetEvents(fs[..i + 1])
  {
    ghost var done := ChangesetRange(env.files, path, revision, r);
    failure, events' := None, events;
    var changesFile := path + "/changes" + Decimal(r);
    if !Exists(env.files, changesFile) {
      assert ChangesetRange(env.files, path, revision, r - 1) == done;
      return;
    }
    assert ChangesetRange(env.files, path, revision, r - 1) == done + [changesFile];
    events' := events + [CheckChangeset(changesFile)];
    assert events' == ChangesetEvents(done + [changesFile]);
    if env.changesetFailure(changesFile).Some? {
      failure := env.changesetFailure(changesFile);
      ChangesetFailureFound(env.changesetFailure, env.files, path, revision, r);
    } else {
      assert FirstFailing(env.changesetFailure, done + [changesFile]) == None by {
        assert (done + [changesFile])[..|done|] == done;
      }
    }
  }

  /** A changes file at revision r that exists and fails is the first
      failure of the pass, found after the files above it. */
  lemma ChangesetFailureFound(fail: string -> Option<string>, files: set<string>, path: string, revision: nat, r: nat)
    requires 0 < r <= revision
    requires FirstFailing(fail, ChangesetRange(files, path, revision, r)) == None
    requires Exists(files, ChangesFile(path, r)) && fail(ChangesFile(path, r)).Some?
    ensures var fs := ChangesetRange(files, path, revision, 0);
      var i := |ChangesetRange(files, path, revision, r)|;
      && i < |fs| && fs[..i + 1] == ChangesetRange(files, path, revision, r - 1)
      && fs[i] == ChangesFile(path, r)
      && FirstFailing(fail, fs) == Some(i)
  {
    var done := ChangesetRange(files, path, revision, r);
    var next := ChangesetRange(files, path, revision, r - 1);
    assert next == done + [ChangesFile(path, r)];
    assert FirstFailing(fail, next) == Some(|done|) by {
      assert next[..|done|] == done;
    }
    ChangesetRangePrefix(files, path, revision, r - 1, 0);
    ChangesetFirstFailingExtends(fail, files, path, revision, r - 1, 0);
  }

  /** A later stretch of the changeset pass starts with an earlier one. */
  lemma {:induction false} ChangesetRangePrefix(files: set<string>, path: string, hi: nat, mid: nat, lo: nat)
    requires lo <= mid
    ensures |ChangesetRange(files, path, hi, mid)| <= |ChangesetRange(files, path, hi, lo)|
    ensures ChangesetRange(files, path, hi, lo)[..|ChangesetRange(files, path, hi, mid)|]
            == ChangesetRange(files, path, hi, mid)
    decreases mid - lo
  {
    if lo < mid && lo < hi {
      ChangesetRangePrefix(files, path, hi, mid, lo + 1);
      var a := ChangesetRange(files, path, hi, lo + 1);
      var m := ChangesetRange(files, path, hi, mid);
      assert a[..|m|] == m;
      var full := ChangesetRange(files, path, hi, lo);
      assert full[..|a|] == a;
      assert full[..|m|] == a[..|m|];
    }
  }

  /** A failure found in an earlier stretch is still the first failure of
      the whole pass. */
  lemma {:induction false} ChangesetFirstFailingExtends(fail: string -> Option<string>, files: set<string>,
                                                        path: string, hi: nat, mid: nat, lo: nat)
    requires lo <= mid
    requires FirstFailing(fail, ChangesetRange(files, path, hi, mid)).Some?
    ensures FirstFailing(fail, ChangesetRange(files, path, hi, lo))
            == FirstFailing(fail, ChangesetRange(files, path, hi, mid))
    decreases mid - lo
  {
    if lo < mid && lo < hi {
      ChangesetFirstFailingExtends(fail, files, path, hi, mid, lo + 1);
      var a := ChangesetRange(files, path, hi, lo + 1);
      var full := ChangesetRange(files, path, hi, lo);
      assert full[..|full| - 1] == a || full == a;
    }
  }

  /** The table checks of a glass directory: all six tables in order, each
      given the directory, the version file's revision and its last docid. */
  function GlassCalls(path: string, revision: nat, opts: bv32, lastDocid: DocId): (r: seq<TableCall>)
    ensures |r| == |GLASS_TABLES|
    ensures forall i :: 0 <= i < |r| ==> r[i] == TableCall(Glass, GLASS_TABLES[i], path, Some(revision), opts, lastDocid)
  {
    seq(|GLASS_TABLES|, i requires 0 <= i < |GLASS_TABLES| =>
      TableCall(Glass, GLASS_TABLES[i], path, Some(revision), opts, lastDocid))
  }

  function TableEvents(calls: seq<TableCall>): (r: seq<Event>)
    ensures |r| == |calls|
    ensures forall i :: 0 <= i < |calls| ==> r[i] == CheckTable(calls[i])
  {
    seq(|calls|, i requires 0 <= i < |calls| => CheckTable(calls[i]))
  }

  lemma {:induction false} TableEventsCalls(calls: seq<TableCall>)
    ensures CallsOf(TableEvents(calls)) == calls
    decreases |calls|
  {
    if calls != [] {
      var init := calls[..|calls| - 1];
      TableEventsCalls(init);
      assert TableEvents(calls)[..|calls| - 1] == TableEvents(init);
    }
  }

  /** The glass table loop: every table is checked, whatever came before. */
  method CheckGlassTables(env: Env, path: string, revision: nat, opts: bv32, lastDocid: DocId)
    returns (added: nat, events: seq<Event>)
    ensures added == SumErrors(env.tableErrors, GlassCalls(path, revision, opts, lastDocid))
    ensures events == TableEvents(GlassCalls(path, revision, opts, lastDocid))
  {
    ghost var calls := GlassCalls(path, revision, opts, lastDocid);
    added := 0;
    events := [];
    for k := 0 to |GLASS_TABLES|
      invariant added == SumErrors(env.tableErrors, calls[..k])
      invariant events == TableEvents(calls[..k])
    {
      var call := TableCall(Glass, GLASS_TABLES[k], path, Some(revision), opts, lastDocid);
      assert calls[..k + 1] == calls[..k] + [call];
      SumErrorsSnoc(env.tableErrors, calls[..k], call);
      added := added + env.tableErrors(call);
      events := events + [CheckTable(call)];
    }
    assert calls[..|GLASS_TABLES|] == calls;
  }

  function GlassOpening(env: Env, path: string, hasOut: bool): seq<Event>
  {
    if hasOut && env.glassOpenFailure(path).Some? then [Say(OpenFailureMessage(env.glassOpenFailure(path).value))]
    else []
  }

  /** What checking a whole glass directory returns and does: a database
      that will not open costs one error and the check goes on; a version
      file that cannot be read, or a changeset whose check throws, ends the
      check with that exception; otherwise the document lengths are
      reserved and every table is checked. */
  function GlassDirectory(env: Env, path: string, opts: bv32, hasOut: bool): (Outcome, seq<Event>)
  {
    var opening := GlassOpening(env, path, hasOut);
    match env.glassVersion(path)
    case VersionReadFailed(d) => (Raised(CollaboratorError(d)), opening)
    case VersionRead(revision, lastDocid) =>
      var fs := ChangesetRange(env.files, path, revision, 0);
      match FirstFailing(env.changesetFailure, fs)
      case Some(i) =>
        (Raised(CollaboratorError(env.changesetFailure(fs[i]).value)), opening + ChangesetEvents(fs[..i + 1]))
      case None =>
        var calls := GlassCalls(path, revision, opts, lastDocid);
        (Count(OpenPenalty(env.glassOpenFailure(path).Some?) + SumErrors(env.tableErrors, calls)),
         opening + (ChangesetEvents(fs) + SayIf(hasOut, ReserveAdvice(lastDocid, env.alloc)) + TableEvents(calls)))
  }

  /** Whether the check got as far as reserving the document lengths. */
  predicate GlassReserves(env: Env, path: string)
  {
    env.glassVersion(path).VersionRead?
    && FirstFailing(env.changesetFailure,
                    ChangesetRange(env.files, path, env.glassVersion(path).revision, 0)).None?
  }

  /** Whether the check reserved room for the document lengths: it got as
      far as reserve_doclens and the reservation was made. */
  predicate GlassReservesRoom(env: Env, path: string)
  {
    GlassReserves(env, path) && ReserveAdvice(env.glassVersion(path).lastDocid, env.alloc).None?
  }

  /** The glass branch: try to open the database, then read the version
      file, walk the changesets and check the tables. */
  method CheckGlassDirectory(env: Env, path: string, opts: bv32, hasOut: bool, doclens: DocLengths)
    returns (res: Outcome, trace: seq<Event>)
    modifies doclens
    ensures (res, trace) == GlassDirectory(env, path, opts, hasOut)
    ensures GlassReservesRoom(env, path)
            ==> doclens.capacity >= env.glassVersion(path).lastDocid + 1
    ensures !(GlassReservesRoom(env, path))
            ==> doclens.capacity == old(doclens.capacity)
  {
    var errors := 0;
    trace := [];
    // The open attempt: a failure is reported and counted, and the
    // check goes on.
    var openFailure := env.glassOpenFailure(path);
    if openFailure.Some? {
      if hasOut {
        trace := [Say(OpenFailureMessage(openFailure.value))];
      }
      errors := errors + 1;
    }
    res, trace := CheckGlassVersion(env, path, opts, hasOut, doclens, errors, trace);
  }

  /** The part of a glass directory check after the attempt to open it:
      read the version file, then check the changesets and tables. */
  method CheckGlassVersion(env: Env, path: string, opts: bv32, hasOut: bool, doclens: DocLengths,
                           errors: nat, opening: seq<Event>)
    returns (res: Outcome, trace: seq<Event>)
    modifies doclens
    requires opening == GlassOpening(env, path, hasOut)
    requires errors == OpenPenalty(env.glassOpenFailure(path).Some?)
    ensures (res, trace) == GlassDirectory(env, path, opts, hasOut)
    ensures GlassReservesRoom(env, path)
            ==> doclens.capacity >= env.glassVersion(path).lastDocid + 1
    ensures !(GlassReservesRoom(env, path))
            ==> doclens.capacity == old(doclens.capacity)
  {
    trace := opening;
    var versionFile := env.glassVersion(path);
    if versionFile.VersionReadFailed? {
      GlassDirectoryUnread(env, path, opts, hasOut);
      return Raised(CollaboratorError(versionFile.description)), trace;
    }
    var failure, added, events := CheckGlassRevision(env, path, opts, hasOut, doclens,
                                                     versionFile.revision, versionFile.lastDocid);
    if failure.Some? {
      GlassDirectoryThrows(env, path, opts, hasOut, trace, events);
      return Raised(CollaboratorError(failure.value)), trace + events;
    }
    GlassDirectoryCounts(env, path, opts, hasOut, trace, events, added);
    res, trace := Count(errors + added), trace + events;
  }

  /** The part of a glass directory check after the version file was read:
      the changesets, then, if none threw, the reservation of the document
      lengths and the six tables. */
  method CheckGlassRevision(env: Env, path: string, opts: bv32, hasOut: bool, doclens: DocLengths,
                            revision: nat, lastDocid: DocId)
    returns (failure: Option<string>, added: nat, events: seq<Event>)
    modifies doclens
    ensures var fs := ChangesetRange(env.files, path, revision, 0);
      FirstFailing(env.changesetFailure, fs).Some? ==>
        var i := FirstFailing(env.changesetFailure, fs).value;
        && failure == Some(env.changesetFailure(fs[i]).value)
        && events == ChangesetEvents(fs[..i + 1])
        && doclens.capacity == old(doclens.capacity)
    ensures var fs := ChangesetRange(env.files, path, revision, 0);
      var calls := GlassCalls(path, revision, opts, lastDocid);
      var advice := ReserveAdvice(lastDocid, env.alloc);
      FirstFailing(env.changesetFailure, fs).None? ==>
        && failure.None?
        && added == SumErrors(env.tableErrors, calls)
        && events == ChangesetEvents(fs) + SayIf(hasOut, advice) + TableEvents(calls)
        && (advice.None? ==> doclens.capacity >= lastDocid + 1)
        && (advice.Some? ==> doclens.capacity == old(doclens.capacity))
  {
    added := 0;
    var changesets;
    failure, changesets := CheckChangesets(env, path, revision);
    if failure.Some? {
      return failure, 0, changesets;
    }
    var said := ReserveDoclens(doclens, lastDocid, hasOut, env.alloc);
    var tables;
    added, tables := CheckGlassTables(env, path, revision, opts, lastDocid);
    events := changesets + said + tables;
  }

  /** The outcome of a glass directory check whose version file could not
      be read. */
  lemma GlassDirectoryUnread(env: Env, path: string, opts: bv32, hasOut: bool)
    requires env.glassVersion(path).VersionReadFailed?
    ensures !GlassReservesRoom(env, path)
    ensures GlassDirectory(env, path, opts, hasOut)
            == (Raised(CollaboratorError(env.glassVersion(path).description)), GlassOpening(env, path, hasOut))
  {
  }

  /** The outcome of a glass directory check whose changeset check threw. */
  lemma GlassDirectoryThrows(env: Env, path: string, opts: bv32, hasOut: bool, opening: seq<Event>, events: seq<Event>)
    requires env.glassVersion(path).VersionRead?
    requires opening == GlassOpening(env, path, hasOut)
    requires var fs := ChangesetRange(env.files, path, env.glassVersion(path).revision, 0);
      FirstFailing(env.changesetFailure, fs).Some?
      && events == ChangesetEvents(fs[..FirstFailing(env.changesetFailure, fs).value + 1])
    ensures var fs := ChangesetRange(env.files, path, env.glassVersion(path).revision, 0);
      var i := FirstFailing(env.changesetFailure, fs).value;
      && !GlassReservesRoom(env, path)
      && GlassDirectory(env, path, opts, hasOut)
         == (Raised(CollaboratorError(env.changesetFailure(fs[i]).value)), opening + events)
  {
  }

  /** The outcome of a glass directory check that got past the changesets. */
  lemma GlassDirectoryCounts(env: Env, path: string, opts: bv32, hasOut: bool, opening: seq<Event>,
                             events: seq<Event>, added: nat)
    requires opening == GlassOpening(env, path, hasOut)
    requires GlassReserves(env, path)
    requires var v := env.glassVersion(path);
      var fs := ChangesetRange(env.files, path, v.revision, 0);
      var calls := GlassCalls(path, v.revision, opts, v.lastDocid);
      && added == SumErrors(env.tableErrors, calls)
      && events == ChangesetEvents(fs) + SayIf(hasOut, ReserveAdvice(v.lastDocid, env.alloc)) + TableEvents(calls)
    ensures GlassReservesRoom(env, path) <==> ReserveAdvice(env.glassVersion(path).lastDocid, env.alloc).None?
    ensures GlassDirectory(env, path, opts, hasOut)
            == (Count(OpenPenalty(env.glassOpenFailure(path).Some?) + added), opening + events)
  {
  }

  /** A glass directory check returns a count exactly when the version file
      was read and no changeset check threw; it then has checked all six
      tables with the version's revision and last docid, and counts one
      error for a database that would not open plus what the tables
      reported.  When it throws, no table was checked. */
  lemma GlassDirectoryCalls(env: Env, path: string, opts: bv32, hasOut: bool)
    ensures GlassDirectory(env, path, opts, hasOut).0.Count? <==> GlassReserves(env, path)
    ensures GlassReserves(env, path) ==>
      var v := env.glassVersion(path);
      && CallsOf(GlassDirectory(env, path, opts, hasOut).1) == GlassCalls(path, v.revision, opts, v.lastDocid)
      && GlassDirectory(env, path, opts, hasOut).0.errors
         == OpenPenalty(env.glassOpenFailure(path).Some?)
            + SumErrors(env.tableErrors, GlassCalls(path, v.revision, opts, v.lastDocid))
    ensures !GlassReserves(env, path) ==> CallsOf(GlassDirectory(env, path, opts, hasOut).1) == []
  {
    var opening := GlassOpening(env, path, hasOut);
    match env.glassVersion(path)
    case VersionReadFailed(_) =>
      CallsOfNone(opening);
    case VersionRead(revision, lastDocid) =>
      var fs := ChangesetRange(env.files, path, revision, 0);
      match FirstFailing(env.changesetFailure, fs)
      case Some(i) =>
        GlassDirectoryThrows(env, path, opts, hasOut, opening, ChangesetEvents(fs[..i + 1]));
        CallsOfNone(opening + ChangesetEvents(fs[..i + 1]));
      case None =>
        var calls := GlassCalls(path, revision, opts, lastDocid);
        var advice := SayIf(hasOut, ReserveAdvice(lastDocid, env.alloc));
        GlassDirectoryCounts(env, path, opts, hasOut, opening, ChangesetEvents(fs) + advice + TableEvents(calls),
                             SumErrors(env.tableErrors, calls));
        GlassTraceCalls(opening, fs, advice, calls);
  }

  /** The calls of a glass directory trace are those of its table loop. */
  lemma GlassTraceCalls(opening: seq<Event>, fs: seq<string>, advice: seq<Event>, calls: seq<TableCall>)
    requires forall e :: e in opening ==> e.Writes()
    requires forall e :: e in advice ==> e.Writes()
    ensures CallsOf(opening + (ChangesetEvents(fs) + advice + TableEvents(calls))) == calls
  {
    CallsOfNone(opening);
    CallsOfNone(ChangesetEvents(fs));
    CallsOfNone(advice);
    TableEventsCalls(calls);
    CallsOfAppend(ChangesetEvents(fs), advice);
    CallsOfAppend(ChangesetEvents(fs) + advice, TableEvents(calls));
    CallsOfAppend(opening, ChangesetEvents(fs) + advice + TableEvents(calls));
  }

  /** Without an output stream a glass directory check writes nothing. */
  lemma GlassDirectorySilent(env: Env, path: string, opts: bv32)
    ensures Silent(GlassDirectory(env, path, opts, false).1)
  {
    match env.glassVersion(path)
    case VersionReadFailed(_) =>
    case VersionRead(revision, lastDocid) =>
      var fs := ChangesetRange(env.files, path, revision, 0);
      match FirstFailing(env.changesetFailure, fs)
      case Some(i) =>
        GlassDirectoryThrows(env, path, opts, false, [], ChangesetEvents(fs[..i + 1]));
      case None =>
        var calls := GlassCalls(path, revision, opts, lastDocid);
        var events := ChangesetEvents(fs) + [] + TableEvents(calls);
        GlassDirectoryCounts(env, path, opts, false, [], events, SumErrors(env.tableErrors, calls));
        ChangesetsAndTablesSilent(fs, calls);
  }

  /** Changeset and table checks write nothing themselves. */
  lemma ChangesetsAndTablesSilent(fs: seq<string>, calls: seq<TableCall>)
    ensures Silent([] + (ChangesetEvents(fs) + [] + TableEvents(calls)))
  {
    var t: seq<Event> := [] + (ChangesetEvents(fs) + [] + TableEvents(calls));
    forall k | 0 <= k < |t|
      ensures !t[k].Writes()
    {
      if k >= |fs| {
        assert t[k] == TableEvents(calls)[k - |fs|];
      }
    }
  }

  /** A changeset check that throws is the last thing the check does, and
      every changeset checked before it passed. */
  lemma ChangesetFailureEndsCheck(env: Env, path: string, opts: bv32, hasOut: bool)
    requires env.glassVersion(path).VersionRead?
    requires FirstFailing(env.changesetFailure,
                          ChangesetRange(env.files, path, env.glassVersion(path).revision, 0)).Some?
    ensures var t := GlassDirectory(env, path, opts, hasOut).1;
      && t != []
      && t[|t| - 1].CheckChangeset?
      && GlassDirectory(env, path, opts, hasOut).0
         == Raised(CollaboratorError(env.changesetFailure(t[|t| - 1].file).value))
      && forall k :: 0 <= k < |t| - 1 && t[k].CheckChangeset? ==> env.changesetFailure(t[k].file).None?
  {
    var opening := GlassOpening(env, path, hasOut);
    var fs := ChangesetRange(env.files, path, env.glassVersion(path).revision, 0);
    var i := FirstFailing(env.changesetFailure, fs).value;
    assert GlassDirectory(env, path, opts, hasOut)
        == (Raised(CollaboratorError(env.changesetFailure(fs[i]).value)), opening + ChangesetEvents(fs[..i + 1]));
    FailingChangesetLast(env.changesetFailure, opening, fs, i);
  }

  /** The events up to the first failing changeset end with its check, and
      no earlier changeset check fails. */
  lemma FailingChangesetLast(fail: string -> Option<string>, opening: seq<Event>, fs: seq<string>, i: nat)
    requires forall k :: 0 <= k < |opening| ==> opening[k].Writes()
    requires FirstFailing(fail, fs) == Some(i)
    ensures var t := opening + ChangesetEvents(fs[..i + 1]);
      && t != [] && t[|t| - 1] == CheckChangeset(fs[i])
      && forall k :: 0 <= k < |t| - 1 && t[k].CheckChangeset? ==> fail(t[k].file).None?
  {
    var ev := ChangesetEvents(fs[..i + 1]);
    var t := opening + ev;
    assert t[|t| - 1] == ev[i];
    forall k | 0 <= k < |t| - 1 && t[k].CheckChangeset?
      ensures fail(t[k].file).None?
    {
      assert t[k] == ev[k - |opening|] == CheckChangeset(fs[k - |opening|]);
    }
  }

  // ---------------------------------------------------------------------
  // A single table

  /** Trimming the name the user gave: a trailing ".", ".DB" or ".glass" is
      removed, and the last two say which backend the table belongs to. */
  function StripTableSuffix(path: string): (r: (string, Option<Backend>))
    ensures |r.0| <= |path| && r.0 == path[..|r.0|]
    ensures r.1 == Some(Chert) <==> EndsWith(path, ".DB") && !EndsWith(path, ".")
    ensures r.1 == Some(Glass) <==> EndsWith(path, ".glass") && !EndsWith(path, ".") && !EndsWith(path, ".DB")
  {
    if EndsWith(path, ".") then (path[..|path| - 1], None)
    else if EndsWith(path, ".DB") then (path[..|path| - 3], Some(Chert))
    else if EndsWith(path, ".glass") then (path[..|path| - 6], Some(Glass))
    else (path, None)
  }

  /** Which backend the table is checked as: the suffix decides, and
      without one the .DB file is looked for before the .glass file. */
  function ResolveBackend(files: set<string>, filename: string, hint: Option<Backend>): (r: Option<Backend>)
    ensures hint.Some? ==> r == hint
    ensures hint.None? ==> (r == Some(Chert) <==> Exists(files, filename + ".DB"))
    ensures hint.None? ==> (r == Some(Glass) <==> !Exists(files, filename + ".DB") && Exists(files, filename + ".glass"))
    ensures r.None? <==> hint.None? && !Exists(files, filename + ".DB") && !Exists(files, filename + ".glass")
  {
    if hint.Some? then hint
    else if Exists(files, filename + ".DB") then Some(Chert)
    else if Exists(files, filename + ".glass") then Some(Glass)
    else None
  }

  /** Where the leafname starts: just after the last '/', or 0. */
  function LeafStart(filename: string): (p: nat)
    ensures p <= |filename|
    ensures p == 0 || filename[p - 1] == '/'
    ensures forall j :: p <= j < |filename| ==> filename[j] != '/'
  {
    match FindLast(filename, '/')
    case None => 0
    case Some(i) => i + 1
  }

  /** The path of a marker file that sits beside the table, in the table's
      directory dir (empty or ending in '/'). */
  function MarkerProbe(dir: string, marker: string): string
  {
    dir + marker
  }

  /** The probe as dbcheck.cc:283 and :287 build it, with an extra '/'. */
  function MarkerProbeAsWritten(dir: string, marker: string): string
  {
    dir + "/" + marker
  }

  /** Checking one glass table found in dir. */
  function SingleGlassTable(env: Env, dir: string, tablename: string, opts: bv32): (Outcome, seq<Event>)
  {
    if !env.glassEnabled then (Raised(FeatureUnavailableError(GLASS_DISABLED)), [])
    else match env.glassVersion(dir)
      case VersionReadFailed(d) => (Raised(CollaboratorError(d)), [])
      case VersionRead(revision, _) =>
        var call := TableCall(Glass, tablename, dir, Some(revision), opts, MAX_DOCID);
        (Count(env.tableErrors(call)), [CheckTable(call)])
  }

  /** Checking one chert table file; asWritten selects how the flint and
      brass markers are looked for. */
  function SingleChertTable(env: Env, filename: string, dir: string, tablename: string, opts: bv32,
                            asWritten: bool): (Outcome, seq<Event>)
  {
    var flint := if asWritten then MarkerProbeAsWritten(dir, "iamflint") else MarkerProbe(dir, "iamflint");
    var brass := if asWritten then MarkerProbeAsWritten(dir, "iambrass") else MarkerProbe(dir, "iambrass");
    if Exists(env.files, flint) then (Raised(FeatureUnavailableError(FLINT_REMOVED)), [])
    else if Exists(env.files, brass) then (Raised(FeatureUnavailableError(BRASS_REMOVED)), [])
    else if !env.chertEnabled then (Raised(FeatureUnavailableError(CHERT_DISABLED)), [])
    else
      var call := TableCall(Chert, tablename, filename, None, opts, MAX_DOCID);
      (Count(env.tableErrors(call)), [CheckTable(call)])
  }

  /** What checking one table returns and does. */
  function SingleTableWith(env: Env, path: string, opts: bv32, asWritten: bool): (Outcome, seq<Event>)
  {
    var (filename, hint) := StripTableSuffix(path);
    match ResolveBackend(env.files, filename, hint)
    case None => (Raised(DatabaseError(NOT_A_DATABASE)), [])
    case Some(backend) =>
      var p := LeafStart(filename);
      var tablename := LowerAscii(filename[p..]);
      if backend == Glass then SingleGlassTable(env, filename[..p], tablename, opts)
      else SingleChertTable(env, filename, filename[..p], tablename, opts, asWritten)
  }

  function SingleTable(env: Env, path: string, opts: bv32): (Outcome, seq<Event>)
  {
    SingleTableWith(env, path, opts, false)
  }

  /** The table name: the leafname from p on, lower-cased a character at a
      time. */
  method TableNameFrom(filename: string, p0: nat) returns (tablename: string)
    requires p0 <= |filename|
    ensures tablename == LowerAscii(filename[p0..])
  {
    tablename := [];
    var p := p0;
    while p != |filename|
      invariant p0 <= p <= |filename|
      invariant tablename == LowerAscii(filename[p0..p])
    {
      assert filename[p0..p + 1] == filename[p0..p] + [filename[p]];
      tablename := tablename + [ToLowerAscii(filename[p])];
      p := p + 1;
    }
    assert filename[p0..p] == filename[p0..];
  }

  /** Trim the name the user gave, shortening the string in place. */
  method TrimTableName(path: string) returns (filename: string, backend: Option<Backend>)
    ensures (filename, backend) == StripTableSuffix(path)
  {
    backend := None;
    filename := path;
    if EndsWith(filename, ".") {
      filename := filename[..|filename| - 1];
    } else if EndsWith(filename, ".DB") {
      filename := filename[..|filename| - 3];
      backend := Some(Chert);
    } else if EndsWith(filename, ".glass") {
      filename := filename[..|filename| - 6];
      backend := Some(Glass);
    }
  }

  method CheckOneGlassTable(env: Env, dir: string, tablename: string, opts: bv32)
    returns (res: Outcome, trace: seq<Event>)
    ensures (res, trace) == SingleGlassTable(env, dir, tablename, opts)
  {
    if !env.glassEnabled {
      return Raised(FeatureUnavailableError(GLASS_DISABLED)), [];
    }
    var versionFile := env.glassVersion(dir);
    if versionFile.VersionReadFailed? {
      return Raised(CollaboratorError(versionFile.description)), [];
    }
    // MAX_DOCID stands in for the unknown last docid.
    var call := TableCall(Glass, tablename, dir, Some(versionFile.revision), opts, MAX_DOCID);
    res := Count(env.tableErrors(call));
    trace := [CheckTable(call)];
  }

  /** Checking one chert table; asWritten probes the retired markers at
      dir + "/" + marker, as dbcheck.cc:283 and :287 do, and otherwise at
      dir + marker, beside the table. */
  method CheckOneChertTable(env: Env, filename: string, dir: string, tablename: string, opts: bv32,
                            asWritten: bool)
    returns (res: Outcome, trace: seq<Event>)
    ensures (res, trace) == SingleChertTable(env, filename, dir, tablename, opts, asWritten)
  {
    // A marker of a retired backend next to the table rejects it.
    var flint := if asWritten then dir + "/iamflint" else dir + "iamflint";
    var brass := if asWritten then dir + "/iambrass" else dir + "iambrass";
    assert asWritten ==> flint == MarkerProbeAsWritten(dir, "iamflint") && brass == MarkerProbeAsWritten(dir, "iambrass");
    if Exists(env.files, flint) {
      return Raised(FeatureUnavailableError(FLINT_REMOVED)), [];
    }
    if Exists(env.files, brass) {
      return Raised(FeatureUnavailableError(BRASS_REMOVED)), [];
    }
    if !env.chertEnabled {
      return Raised(FeatureUnavailableError(CHERT_DISABLED)), [];
    }
    // MAX_DOCID stands in for the unknown last docid.
    var call := TableCall(Chert, tablename, filename, None, opts, MAX_DOCID);
    res := Count(env.tableErrors(call));
    trace := [CheckTable(call)];
  }

  /** Check a single table named by path; asWritten selects the probe for
      the retired markers, as in CheckOneChertTable. */
  method CheckSingleTable(env: Env, path: string, opts: bv32, asWritten: bool)
    returns (res: Outcome, trace: seq<Event>)
    ensures (res, trace) == SingleTableWith(env, path, opts, asWritten)
  {
    var filename, backend := TrimTableName(path);
    if backend == None {
      if Exists(env.files, filename + ".DB") {
        // Retired backends sharing .DB are told apart in CheckOneChertTable.
        backend := Some(Chert);
      } else if Exists(env.files, filename + ".glass") {
        backend := Some(Glass);
      } else {
        return Raised(DatabaseError(NOT_A_DATABASE)), [];
      }
    }
    assert backend == ResolveBackend(env.files, filename, StripTableSuffix(path).1);

    var p: nat := match FindLast(filename, '/') case None => 0 case Some(i) => i + 1;
    assert p == LeafStart(filename);
    var dir := filename[..p];
    var tablename := TableNameFrom(filename, p);

    if backend == Some(Glass) {
      res, trace := CheckOneGlassTable(env, dir, tablename, opts);
    } else {
      res, trace := CheckOneChertTable(env, filename, dir, tablename, opts, asWritten);
    }
  }

  /** "name", "name.", "name.DB" and "name.glass" all check the same table
      (the suffixed spellings agree with the bare one whenever the bare one
      would settle on the same backend). */
  lemma TableSuffixSpellings(env: Env, name: string, opts: bv32)
    requires !EndsWith(name, ".") && !EndsWith(name, ".DB") && !EndsWith(name, ".glass")
    ensures SingleTable(env, name + ".", opts) == SingleTable(env, name, opts)
    ensures Exists(env.files, name + ".DB") ==> SingleTable(env, name + ".DB", opts) == SingleTable(env, name, opts)
    ensures !Exists(env.files, name + ".DB") && Exists(env.files, name + ".glass")
            ==> SingleTable(env, name + ".glass", opts) == SingleTable(env, name, opts)
  {
    StripSuffixes(name);
    var dot, db, gl := name + ".", name + ".DB", name + ".glass";
    SingleTableSameStrip(env, dot, name, opts);
    if Exists(env.files, db) {
      SingleTableSameStrip(env, db, name, opts);
    }
    if !Exists(env.files, db) && Exists(env.files, gl) {
      SingleTableSameStrip(env, gl, name, opts);
    }
  }

  /** The three suffixes come off a name that carries none of them. */
  lemma StripSuffixes(name: string)
    requires !EndsWith(name, ".") && !EndsWith(name, ".DB") && !EndsWith(name, ".glass")
    ensures StripTableSuffix(name) == (name, None)
    ensures StripTableSuffix(name + ".") == (name, None)
    ensures StripTableSuffix(name + ".DB") == (name, Some(Chert))
    ensures StripTableSuffix(name + ".glass") == (name, Some(Glass))
  {
    StripDot(name);
    StripDB(name);
    StripGlass(name);
  }

  lemma StripDot(name: string)
    ensures StripTableSuffix(name + ".") == (name, None)
  {
    var dot := name + ".";
    assert EndsWith(dot, ".") && dot[..|name|] == name by {
      assert dot[|dot| - 1..] == ".";
    }
  }

  lemma StripDB(name: string)
    ensures StripTableSuffix(name + ".DB") == (name, Some(Chert))
  {
    var db := name + ".DB";
    assert EndsWith(db, ".DB") && !EndsWith(db, ".") && db[..|name|] == name by {
      assert db[|db| - 3..] == ".DB";
      assert db[|db| - 1..] == "B";
    }
  }

  lemma StripGlass(name: string)
    ensures StripTableSuffix(name + ".glass") == (name, Some(Glass))
  {
    var gl := name + ".glass";
    assert EndsWith(gl, ".glass") && !EndsWith(gl, ".") && !EndsWith(gl, ".DB") && gl[..|name|] == name by {
      assert gl[|gl| - 6..] == ".glass";
      assert gl[|gl| - 3..] == "ass";
      assert gl[|gl| - 1..] == "s";
    }
  }

  /** Two spellings that strip to the same name and settle on the same
      backend are checked alike. */
  lemma SingleTableSameStrip(env: Env, path: string, path': string, opts: bv32)
    requires StripTableSuffix(path).0 == StripTableSuffix(path').0
    requires ResolveBackend(env.files, StripTableSuffix(path).0, StripTableSuffix(path).1)
             == ResolveBackend(env.files, StripTableSuffix(path').0, StripTableSuffix(path').1)
    ensures SingleTable(env, path, opts) == SingleTable(env, path', opts)
  {
  }

  /** Checking a single table makes at most one table check, and only when
      it returns a count: "not a database" is raised exactly when no backend
      is resolved; otherwise the check is of the resolved backend, the table
      name is the lower-cased leafname, the last docid is the maximum so
      that no docid is out of range, and a chert table is named by its path
      without suffix and has no version. */
  lemma SingleTableCall(env: Env, path: string, opts: bv32)
    ensures var (res, trace) := SingleTable(env, path, opts);
      var backend := ResolveBackend(env.files, StripTableSuffix(path).0, StripTableSuffix(path).1);
      && (backend.None? <==> res == Raised(DatabaseError(NOT_A_DATABASE)))
      && (res.Raised? ==> trace == [])
      && (res.Count? ==>
            var filename := StripTableSuffix(path).0;
            var leaf := filename[LeafStart(filename)..];
            && |trace| == 1 && trace[0].CheckTable?
            && backend == Some(trace[0].call.backend)
            && res.errors == env.tableErrors(trace[0].call)
            && trace[0].call.table == LowerAscii(leaf)
            && trace[0].call.lastDocid == MAX_DOCID
            && trace[0].call.opts == opts
            && (trace[0].call.backend == Chert ==>
                  trace[0].call.location == filename && trace[0].call.revision == None)
            && (trace[0].call.backend == Glass ==>
                  trace[0].call.location + leaf == filename && trace[0].call.revision.Some?))
  {
    var (filename, hint) := StripTableSuffix(path);
    match ResolveBackend(env.files, filename, hint)
    case None =>
    case Some(Glass) =>
      SingleGlassCall(env, path, opts);
    case Some(Chert) =>
      SingleChertCall(env, path, opts);
  }

  /** For a table that resolves to chert, whichever probe is used: the
      flint error is raised exactly when the flint probe finds a file; with
      no flint marker, the brass error exactly when the brass probe finds
      one; and either error comes before any table is checked. */
  lemma RetiredMarkerRejects(env: Env, path: string, opts: bv32, asWritten: bool)
    requires ResolveBackend(env.files, StripTableSuffix(path).0, StripTableSuffix(path).1) == Some(Chert)
    ensures var filename := StripTableSuffix(path).0;
      var dir := filename[..LeafStart(filename)];
      var flint := if asWritten then MarkerProbeAsWritten(dir, "iamflint") else MarkerProbe(dir, "iamflint");
      var brass := if asWritten then MarkerProbeAsWritten(dir, "iambrass") else MarkerProbe(dir, "iambrass");
      var (res, trace) := SingleTableWith(env, path, opts, asWritten);
      && (res == Raised(FeatureUnavailableError(FLINT_REMOVED)) <==> Exists(env.files, flint))
      && (!Exists(env.files, flint) ==>
            (res == Raised(FeatureUnavailableError(BRASS_REMOVED)) <==> Exists(env.files, brass)))
      && (Exists(env.files, flint) || Exists(env.files, brass) ==> trace == [])
  {
    assert FLINT_REMOVED != BRASS_REMOVED && FLINT_REMOVED != CHERT_DISABLED && BRASS_REMOVED != CHERT_DISABLED;
  }

  /** A table that resolves to glass is checked, if at all, as a glass
      table in the directory of the path, with the revision the version
      file there gives; an error is never "not a database". */
  lemma SingleGlassCall(env: Env, path: string, opts: bv32)
    requires ResolveBackend(env.files, StripTableSuffix(path).0, StripTableSuffix(path).1) == Some(Glass)
    ensures var (res, trace) := SingleTable(env, path, opts);
      && res != Raised(DatabaseError(NOT_A_DATABASE))
      && (res.Raised? ==> trace == [])
      && (res.Count? ==>
            var filename := StripTableSuffix(path).0;
            var leaf := filename[LeafStart(filename)..];
            && |trace| == 1 && trace[0].CheckTable?
            && trace[0].call.backend == Glass
            && res.errors == env.tableErrors(trace[0].call)
            && trace[0].call.table == LowerAscii(leaf)
            && trace[0].call.lastDocid == MAX_DOCID
            && trace[0].call.opts == opts
            && trace[0].call.location + leaf == filename
            && env.glassVersion(trace[0].call.location).VersionRead?
            && trace[0].call.revision == Some(env.glassVersion(trace[0].call.location).revision))
  {
    var filename := StripTableSuffix(path).0;
    var p := LeafStart(filename);
    var tablename := LowerAscii(filename[p..]);
    assert SingleTable(env, path, opts) == SingleGlassTable(env, filename[..p], tablename, opts);
    GlassTableShape(env, filename[..p], tablename, opts);
    assert filename[..p] + filename[p..] == filename;
  }

  /** A table that resolves to chert is checked, if at all, as a chert
      table named by its path without suffix, with no revision; an error is
      never "not a database". */
  lemma SingleChertCall(env: Env, path: string, opts: bv32)
    requires ResolveBackend(env.files, StripTableSuffix(path).0, StripTableSuffix(path).1) == Some(Chert)
    ensures var (res, trace) := SingleTable(env, path, opts);
      && res != Raised(DatabaseError(NOT_A_DATABASE))
      && (res.Raised? ==> trace == [])
      && (res.Count? ==>
            var filename := StripTableSuffix(path).0;
            var leaf := filename[LeafStart(filename)..];
            && |trace| == 1 && trace[0].CheckTable?
            && trace[0].call.backend == Chert
            && res.errors == env.tableErrors(trace[0].call)
            && trace[0].call.table == LowerAscii(leaf)
            && trace[0].call.lastDocid == MAX_DOCID
            && trace[0].call.opts == opts
            && trace[0].call.location == filename
            && trace[0].call.revision == None)
  {
    var filename := StripTableSuffix(path).0;
    var p := LeafStart(filename);
    var tablename := LowerAscii(filename[p..]);
    assert SingleTable(env, path, opts) == SingleChertTable(env, filename, filename[..p], tablename, opts, false);
    ChertTableShape(env, filename, filename[..p], tablename, opts, false);
  }

  /** A single glass table check throws with an empty trace or makes one
      table check with the version's revision. */
  lemma GlassTableShape(env: Env, dir: string, tablename: string, opts: bv32)
    ensures var (res, trace) := SingleGlassTable(env, dir, tablename, opts);
      && (res.Raised? ==> trace == [])
      && (res.Count? ==>
            && env.glassVersion(dir).VersionRead?
            && var call := TableCall(Glass, tablename, dir, Some(env.glassVersion(dir).revision), opts, MAX_DOCID);
            && trace == [CheckTable(call)] && res.errors == env.tableErrors(call))
  {
  }

  /** A single chert table check throws with an empty trace or makes one
      table check of the file itself, without a revision. */
  lemma ChertTableShape(env: Env, filename: string, dir: string, tablename: string, opts: bv32, asWritten: bool)
    ensures var (res, trace) := SingleChertTable(env, filename, dir, tablename, opts, asWritten);
      && (res.Raised? ==> trace == [])
      && (res.Count? ==>
            var call := TableCall(Chert, tablename, filename, None, opts, MAX_DOCID);
            trace == [CheckTable(call)] && res.errors == env.tableErrors(call))
  {
  }

  /** The path of the table with its leafname replaced by the marker: the
      marker is looked for in the directory that holds the table. */
  lemma MarkerProbeBesideTable(filename: string, marker: string)
    requires forall j :: 0 <= j < |marker| ==> marker[j] != '/'
    ensures var p := LeafStart(filename);
      && LeafStart(MarkerProbe(filename[..p], marker)) == p
      && MarkerProbe(filename[..p], marker)[..p] == filename[..p]
      && MarkerProbe(filename[..p], marker)[p..] == marker
  {
    var p := LeafStart(filename);
    var probe := MarkerProbe(filename[..p], marker);
    assert forall j :: p <= j < |probe| ==> probe[j] == marker[j - p];
    if p > 0 {
      assert probe[p - 1] == '/';
    }
  }

  /** A name with no '/' in it, alone or after one '/', has nothing to
      collapse. */
  lemma {:induction false} CollapseNoSlash(s: string)
    requires forall j :: 0 <= j < |s| ==> s[j] != '/'
    ensures CollapseSlashes(s) == s
    ensures CollapseSlashes("/" + s) == "/" + s
    decreases |s|
  {
    if s != [] {
      var slashed := "/" + s;
      CollapseNoSlash(s[1..]);
      assert CollapseSlashes(s) == s by {
        assert s == [s[0]] + s[1..];
      }
      assert slashed[0] == '/' && slashed[1] == s[0] && slashed[1..] == s;
    }
  }

  /** "postlist.DB" is the chert table "postlist" in the current directory. */
  lemma PostlistInCurrentDirectory()
    ensures StripTableSuffix("postlist.DB") == ("postlist", Some(Chert))
    ensures LeafStart("postlist") == 0
  {
    var path := "postlist.DB";
    assert path[10] == 'B' && path[8..] == ".DB" && path[..8] == "postlist";
    var name := "postlist";
    assert forall j :: 0 <= j < |name| ==> name[j] != '/';
  }

  /** As written, the probe for a table given without a directory, such as
      "postlist.DB", is "/iamflint" in the root directory: a flint table in
      the current directory is then checked as a chert table, where the
      corrected probe reports that flint is no longer supported. */
  lemma RootProbeCounterexample(env: Env, opts: bv32)
    requires env.chertEnabled
    requires "iamflint" in env.files && "/iamflint" !in env.files && "/iambrass" !in env.files
    ensures LeafStart("postlist") == 0 && LeafStart(MarkerProbeAsWritten("", "iamflint")) == 1
    ensures SingleTableWith(env, "postlist.DB", opts, true).0.Count?
    ensures SingleTableWith(env, "postlist.DB", opts, false).0 == Raised(FeatureUnavailableError(FLINT_REMOVED))
  {
    PostlistInCurrentDirectory();
    RootMarkerLeaf();
    assert SingleTableWith(env, "postlist.DB", opts, true).0.Count? by {
      PostlistAsChertTable(env, opts, true);
      RootProbesFound(env);
    }
    assert SingleTableWith(env, "postlist.DB", opts, false).0 == Raised(FeatureUnavailableError(FLINT_REMOVED)) by {
      PostlistAsChertTable(env, opts, false);
      RootProbesFound(env);
    }
  }

  /** The probe as written for a table without a directory has its leaf
      after the leading '/'. */
  lemma RootMarkerLeaf()
    ensures LeafStart(MarkerProbeAsWritten("", "iamflint")) == 1
  {
    var probe := MarkerProbeAsWritten("", "iamflint");
    assert forall j :: 0 <= j < |"iamflint"| ==> "iamflint"[j] != '/';
    assert "/" + "iamflint" == "/iamflint";
    assert probe[0] == '/';
    assert forall j :: 1 <= j < |probe| ==> probe[j] == "iamflint"[j - 1];
  }

  lemma PostlistAsChertTable(env: Env, opts: bv32, asWritten: bool)
    ensures SingleTableWith(env, "postlist.DB", opts, asWritten)
         == SingleChertTable(env, "postlist", "", LowerAscii("postlist"), opts, asWritten)
  {
    PostlistInCurrentDirectory();
    assert "postlist"[..0] == "";
  }

  lemma RootProbesFound(env: Env)
    requires "iamflint" in env.files && "/iamflint" !in env.files && "/iambrass" !in env.files
    ensures !Exists(env.files, MarkerProbeAsWritten("", "iamflint"))
    ensures !Exists(env.files, MarkerProbeAsWritten("", "iambrass"))
    ensures Exists(env.files, MarkerProbe("", "iamflint"))
  {
    MarkerNamesHaveNoSlash();
    RootProbeName("iamflint");
    RootProbeName("iambrass");
    RootMarkerPaths();
  }

  /** The root paths of the two markers, spelled out. */
  lemma RootMarkerPaths()
    ensures "/" + "iamflint" == "/iamflint" && "/" + "iambrass" == "/iambrass"
  {
  }

  /** Neither marker name holds a '/'. */
  lemma MarkerNamesHaveNoSlash()
    ensures forall j :: 0 <= j < |"iamflint"| ==> "iamflint"[j] != '/'
    ensures forall j :: 0 <= j < |"iambrass"| ==> "iambrass"[j] != '/'
  {
  }

  /** With no directory, the probe as written is in the root directory and
      the corrected probe is in the current one. */
  lemma RootProbeName(marker: string)
    requires forall j :: 0 <= j < |marker| ==> marker[j] != '/'
    ensures CollapseSlashes(MarkerProbeAsWritten("", marker)) == "/" + marker
    ensures CollapseSlashes(MarkerProbe("", marker)) == marker
  {
    CollapseNoSlash(marker);
    assert MarkerProbeAsWritten("", marker) == "/" + marker;
    assert MarkerProbe("", marker) == marker;
  }

  /** Collapsing slashes: an extra '/' after a directory that already ends
      in one changes nothing. */
  lemma {:induction false} CollapseExtraSlash(dir: string, rest: string)
    requires dir != [] && dir[|dir| - 1] == '/'
    ensures CollapseSlashes(dir + "/" + rest) == CollapseSlashes(dir + rest)
    decreases |dir|
  {
    var extra := dir + "/" + rest;
    var plain := dir + rest;
    if |dir| == 1 {
      assert extra[0] == '/' && extra[1] == '/';
      assert extra[1..] == plain;
    } else {
      var tail := dir[1..];
      CollapseExtraSlash(tail, rest);
      assert extra[0] == plain[0] && extra[1] == plain[1];
      assert extra[1..] == tail + "/" + rest;
      assert plain[1..] == tail + rest;
    }
  }

  /** For a table given with a directory the probe as written and the
      corrected probe name the same file. */
  lemma MarkerProbesAgree(files: set<string>, dir: string, marker: string)
    requires dir != [] && dir[|dir| - 1] == '/'
    ensures Exists(files, MarkerProbeAsWritten(dir, marker)) <==> Exists(files, MarkerProbe(dir, marker))
  {
    CollapseExtraSlash(dir, marker);
    assert MarkerProbeAsWritten(dir, marker) == dir + "/" + marker;
  }

  // ---------------------------------------------------------------------
  // The dispatcher

  /** Every table check in the trace was given opts. */
  predicate OptionsPassed(trace: seq<Event>, opts: bv32)
  {
    forall i :: 0 <= i < |CallsOf(trace)| ==> CallsOf(trace)[i].opts == opts
  }

  /** Every table check of a chert directory gets the options, revision and
      last docid it was given, and a path inside the directory. */
  lemma {:induction false} ChertCallsArguments(files: set<string>, path: string, names: seq<string>,
                                               revision: nat, opts: bv32, lastDocid: DocId)
    ensures forall c :: c in ChertCalls(files, path, names, revision, opts, lastDocid) ==>
      && c.backend == Chert && c.opts == opts && c.revision == Some(revision) && c.lastDocid == lastDocid
      && c.location == path + "/" + c.table && c.table in names
    decreases |names|
  {
    if names != [] {
      ChertCallsArguments(files, path, names[..|names| - 1], revision, opts, lastDocid);
      assert names[|names| - 1] in names;
      assert forall t :: t in names[..|names| - 1] ==> t in names;
    }
  }

  lemma ChertOptionsPassed(files: set<string>, path: string, revision: nat, opts: bv32, lastDocid: DocId,
                           trace: seq<Event>)
    requires CallsOf(trace) == ChertCalls(files, path, CHERT_TABLES, revision, opts, lastDocid)
    ensures OptionsPassed(trace, opts)
  {
    ChertCallsArguments(files, path, CHERT_TABLES, revision, opts, lastDocid);
    forall i | 0 <= i < |CallsOf(trace)|
      ensures CallsOf(trace)[i].opts == opts
    {
      assert CallsOf(trace)[i] in ChertCalls(files, path, CHERT_TABLES, revision, opts, lastDocid);
    }
  }

  lemma GlassOptionsPassed(env: Env, path: string, opts: bv32, hasOut: bool)
    ensures OptionsPassed(GlassDirectory(env, path, opts, hasOut).1, opts)
    ensures !hasOut ==> Silent(GlassDirectory(env, path, opts, hasOut).1)
  {
    GlassDirectoryCalls(env, path, opts, hasOut);
    if !hasOut {
      GlassDirectorySilent(env, path, opts);
    }
  }

  lemma SingleTableOptionsPassed(env: Env, path: string, opts: bv32)
    ensures OptionsPassed(SingleTable(env, path, opts).1, opts)
    ensures Silent(SingleTable(env, path, opts).1)
  {
    SingleTableCall(env, path, opts);
    var t := SingleTable(env, path, opts).1;
    if t != [] {
      assert t[..0] == [];
      assert CallsOf(t) == [t[0].call];
    }
  }

  /** Xapian::Database::check: check the database or table at path with the
      given options, writing to the output stream when there is one.  It
      returns the error count or throws; reserved is the capacity the
      document-length vector ended with. */
  method Check(env: Env, path: string, opts0: bv32, hasOut: bool)
    returns (res: Outcome, trace: seq<Event>, reserved: nat)
    ensures OptionsPassed(trace, EffectiveOptions(opts0, hasOut))
    ensures !hasOut ==> Silent(trace)
    ensures Exists(env.files, path + "/iamchert") && !env.chertEnabled ==>
      res == Raised(FeatureUnavailableError(CHERT_DISABLED)) && trace == []
    ensures Exists(env.files, path + "/iamchert") && env.chertEnabled ==>
      var o := env.chertOpen(path);
      var calls := ChertCalls(env.files, path, CHERT_TABLES, ChertRevision(o), EffectiveOptions(opts0, hasOut),
                              ChertLastDocid(o));
      && res == Count(OpenPenalty(o.ChertOpenFailed?) + SumErrors(env.tableErrors, calls))
      && CallsOf(trace) == calls
      && (ReadAndCheckVersion(path) in trace
          <==> EffectiveOptions(opts0, hasOut) & DBCHECK_FIX != 0 && SumErrors(env.tableErrors, calls) == 0)
      && (RecreateVersion(path) in trace
          <==> EffectiveOptions(opts0, hasOut) & DBCHECK_FIX != 0 && SumErrors(env.tableErrors, calls) == 0
               && !env.chertVersionValid(path))
      && (o.ChertOpened? && ReserveAdvice(o.lastDocid, env.alloc).None? ==> reserved >= o.lastDocid + 1)
      && (!(o.ChertOpened? && ReserveAdvice(o.lastDocid, env.alloc).None?) ==> reserved == 0)
    ensures !Exists(env.files, path + "/iamchert") && Exists(env.files, path + "/iamglass") ==>
      if !env.glassEnabled then res == Raised(FeatureUnavailableError(GLASS_DISABLED)) && trace == []
      else
        && (res, trace) == GlassDirectory(env, path, EffectiveOptions(opts0, hasOut), hasOut)
        && (GlassReservesRoom(env, path)
            ==> reserved >= env.glassVersion(path).lastDocid + 1)
        && (!(GlassReservesRoom(env, path))
            ==> reserved == 0)
    ensures !Exists(env.files, path + "/iamchert") && !Exists(env.files, path + "/iamglass") ==>
      if Exists(env.files, path + "/iamflint") then
        res == Raised(FeatureUnavailableError(FLINT_REMOVED)) && trace == []
      else if Exists(env.files, path + "/iambrass") then
        res == Raised(FeatureUnavailableError(BRASS_REMOVED)) && trace == []
      else if Exists(env.files, path + "/record_DB") then
        res == Raised(FeatureUnavailableError(QUARTZ_REMOVED)) && trace == []
      else
        (res, trace) == SingleTable(env, path, EffectiveOptions(opts0, hasOut)) && reserved == 0
  {
    var opts := opts0;
    if !hasOut {
      // No stream: keep only the DBCHECK_FIX bit.
      opts := opts & DBCHECK_FIX;
    }
    var doclens := new DocLengths();
    if Exists(env.files, path + "/iamchert") {
      res, trace := CheckChertDatabase(env, path, opts, hasOut, doclens);
    } else if Exists(env.files, path + "/iamglass") {
      res, trace := CheckGlassDatabase(env, path, opts, hasOut, doclens);
    } else {
      res, trace := CheckOtherPath(env, path, opts);
    }
    reserved := doclens.capacity;
  }

  /** The chert branch of check(): a directory holding iamchert. */
  method CheckChertDatabase(env: Env, path: string, opts: bv32, hasOut: bool, doclens: DocLengths)
    returns (res: Outcome, trace: seq<Event>)
    modifies doclens
    requires doclens.capacity == 0
    ensures OptionsPassed(trace, opts)
    ensures !hasOut ==> Silent(trace)
    ensures !env.chertEnabled ==>
      res == Raised(FeatureUnavailableError(CHERT_DISABLED)) && trace == [] && doclens.capacity == 0
    ensures env.chertEnabled ==>
      var o := env.chertOpen(path);
      var calls := ChertCalls(env.files, path, CHERT_TABLES, ChertRevision(o), opts, ChertLastDocid(o));
      && res == Count(OpenPenalty(o.ChertOpenFailed?) + SumErrors(env.tableErrors, calls))
      && CallsOf(trace) == calls
      && (ReadAndCheckVersion(path) in trace
          <==> opts & DBCHECK_FIX != 0 && SumErrors(env.tableErrors, calls) == 0)
      && (RecreateVersion(path) in trace
          <==> opts & DBCHECK_FIX != 0 && SumErrors(env.tableErrors, calls) == 0
               && !env.chertVersionValid(path))
      && (o.ChertOpened? && ReserveAdvice(o.lastDocid, env.alloc).None? ==> doclens.capacity >= o.lastDocid + 1)
      && (!(o.ChertOpened? && ReserveAdvice(o.lastDocid, env.alloc).None?) ==> doclens.capacity == 0)
  {
    if !env.chertEnabled {
      return Raised(FeatureUnavailableError(CHERT_DISABLED)), [];
    }
    var errors;
    errors, trace := CheckChertDirectory(env, path, opts, hasOut, doclens);
    res := Count(errors);
    var o := env.chertOpen(path);
    ChertOptionsPassed(env.files, path, ChertRevision(o), opts, ChertLastDocid(o), trace);
  }

  /** The glass branch of check(): a directory holding iamglass. */
  method CheckGlassDatabase(env: Env, path: string, opts: bv32, hasOut: bool, doclens: DocLengths)
    returns (res: Outcome, trace: seq<Event>)
    modifies doclens
    requires doclens.capacity == 0
    ensures OptionsPassed(trace, opts)
    ensures !hasOut ==> Silent(trace)
    ensures !env.glassEnabled ==>
      res == Raised(FeatureUnavailableError(GLASS_DISABLED)) && trace == [] && doclens.capacity == 0
    ensures env.glassEnabled ==>
      && (res, trace) == GlassDirectory(env, path, opts, hasOut)
      && (GlassReservesRoom(env, path) ==> doclens.capacity >= env.glassVersion(path).lastDocid + 1)
      && (!GlassReservesRoom(env, path) ==> doclens.capacity == 0)
  {
    if !env.glassEnabled {
      return Raised(FeatureUnavailableError(GLASS_DISABLED)), [];
    }
    res, trace := CheckGlassDirectory(env, path, opts, hasOut, doclens);
    GlassOptionsPassed(env, path, opts, hasOut);
  }

  /** The rest of check(): the markers of removed backends, then a single
      table. */
  method CheckOtherPath(env: Env, path: string, opts: bv32) returns (res: Outcome, trace: seq<Event>)
    ensures OptionsPassed(trace, opts)
    ensures Silent(trace)
    ensures if Exists(env.files, path + "/iamflint") then
        res == Raised(FeatureUnavailableError(FLINT_REMOVED)) && trace == []
      else if Exists(env.files, path + "/iambrass") then
        res == Raised(FeatureUnavailableError(BRASS_REMOVED)) && trace == []
      else if Exists(env.files, path + "/record_DB") then
        res == Raised(FeatureUnavailableError(QUARTZ_REMOVED)) && trace == []
      else
        (res, trace) == SingleTable(env, path, opts)
  {
    if Exists(env.files, path + "/iamflint") {
      return Raised(FeatureUnavailableError(FLINT_REMOVED)), [];
    }
    if Exists(env.files, path + "/iambrass") {
      return Raised(FeatureUnavailableError(BRASS_REMOVED)), [];
    }
    if Exists(env.files, path + "/record_DB") {
      return Raised(FeatureUnavailableError(QUARTZ_REMOVED)), [];
    }
    res, trace := CheckSingleTable(env, path, opts, false);
    SingleTableOptionsPassed(env, path, opts);
  }
}
