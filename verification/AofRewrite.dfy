/** The append-only files (aof.c) while AOF is on: a manifest names a BASE file and INCR files;
    commands are fed to a buffer and flushed to the last INCR file; a child process writes a new
    BASE; every system call on the way may fail or come short.  The manifest and the files live
    on a disk that survives a crash of the process. */
module AofRewrite {
  import opened Text
  import opened AofFormat
  import AofLoad
  import AofLoadProofs
  import AofFlush
  import opened AofStream
  import opened AofFeed

  type Kinds = Argv -> AofLoad.Kind

  /** "<name>.<seq>.base.rdb", "<name>.<seq>.base.aof" and "<name>.<seq>.incr.aof". */
  datatype FileName = Base(seqno: nat, rdb: bool) | Incr(seqno: nat)

  /** A BASE file stands for the dataset it was written from; an INCR file is text. */
  datatype Data = Dataset(effects: seq<Effect>) | Log(text: string)

  type Files = map<FileName, Data>

  /** The manifest file: the files to load, and those waiting to be deleted. */
  datatype Listing = Listing(base: Option<FileName>, incr: seq<FileName>, history: seq<FileName>)

  /** aofManifest in memory. */
  datatype Manifest = Manifest(listing: Listing, baseSeq: nat, incrSeq: nat, dirty: bool)

  /** The child process: the dataset it was forked with, and the records that were still in the
      buffer then. */
  datatype Child = Child(snapshot: seq<Effect>, rdb: bool, late: seq<Record>)

  /** server.aof_* and the disk.  The open file has an offset, a mode and a known size; `selected` is
      aof_selected_db, None for -1; `fed` are the records meant for the open file, written or buffered;
      `executed` is the dataset, as the data commands that made it, each in its database. */
  datatype State = State(
    manifest: Manifest, fd: FileName, pos: nat, append: bool, size: nat, buf: string, selected: Option<nat>,
    fed: seq<Record>, executed: seq<Effect>, child: Option<Child>, files: Files, listing: Listing)

  // ---------------------------------------------------------------- loading

  function LoadList(l: Listing): seq<FileName> {
    (if l.base.Some? then [l.base.value] else []) + l.incr
  }

  function Plus(a: Option<seq<Effect>>, b: Option<seq<Effect>>): Option<seq<Effect>> {
    if a.Some? && b.Some? then Some(a.value + b.value) else None
  }

  function TextOf(d: Data): string {
    if d.Log? then d.text else ""
  }

  /** A file is replayed by a new client in database 0.  One that is not the last must not be truncated. */
  function Read(kind: Kinds, d: Data): Option<seq<Effect>> {
    match d
    case Dataset(effects) => Some(effects)
    case Log(text) =>
      var l := AofLoad.Load(kind, text);
      if l.status.AofOk? || l.status.AofEmpty? then Some(Place(l.executed, 0)) else None
  }

  /** The last file may be truncated. */
  function ReadLast(kind: Kinds, d: Data): Option<seq<Effect>> {
    match d
    case Dataset(effects) => Some(effects)
    case Log(text) =>
      var l := AofLoad.Load(kind, text);
      if l.status.AofFailed? then None else Some(Place(l.executed, 0))
  }

  function ReadAll(kind: Kinds, files: Files, names: seq<FileName>): Option<seq<Effect>> {
    if names == [] then Some([])
    else if names[0] in files then Plus(Read(kind, files[names[0]]), ReadAll(kind, files, names[1..]))
    else None
  }

  /** loadAppendOnlyFiles: what the files of a manifest give, if they can be loaded. */
  function LoadFiles(kind: Kinds, files: Files, names: seq<FileName>): Option<seq<Effect>> {
    if names == [] then Some([])
    else
      var n := |names| - 1;
      if names[n] in files then Plus(ReadAll(kind, files, names[..n]), ReadLast(kind, files[names[n]])) else None
  }

  /** What a load leaves of a file: a truncated one is cut. */
  function LeftOf(kind: Kinds, d: Data): Data {
    match d
    case Dataset(_) => d
    case Log(text) => Log(AofLoad.Load(kind, text).file)
  }

  /** How many files are read: up to the first that cannot be loaded. */
  function FilesRead(kind: Kinds, files: Files, names: seq<FileName>): (n: nat)
    ensures n <= |names|
  {
    if names == [] then 0
    else if names[0] in files && Read(kind, files[names[0]]).Some? then 1 + FilesRead(kind, files, names[1..])
    else 1
  }

  /** Files that were read are left as their load leaves them. */
  function AfterReading(kind: Kinds, files: Files, read: seq<FileName>): Files {
    map f | f in files :: if f in read then LeftOf(kind, files[f]) else files[f]
  }

  /** The disk after loadAppendOnlyFiles, which reads nothing when a file is missing. */
  function LoadDisk(kind: Kinds, files: Files, names: seq<FileName>): Files {
    if exists i :: 0 <= i < |names| && names[i] !in files then files
    else AfterReading(kind, files, names[..FilesRead(kind, files, names)])
  }

  /** What a restarted server would load. */
  function Recovered(kind: Kinds, s: State): Option<seq<Effect>> {
    LoadFiles(kind, s.files, LoadList(s.listing))
  }

  function Content(s: State): string {
    if s.fd in s.files then TextOf(s.files[s.fd]) else ""
  }

  /** The promise: the files of the manifest on disk load, and give every data command that was
      executed, in order, but for those whose text is not wholly in the open file. */
  predicate Exact(kind: Kinds, s: State) {
    Recovered(kind, s).Some? && s.executed == Recovered(kind, s).value + Pending(kind, s.fed, |Content(s)|)
  }

  // ---------------------------------------------------------------- the manifest

  /** getNewIncrAofName */
  function WithNewIncr(m: Manifest): Manifest {
    var name := Incr(m.incrSeq + 1);
    m.(listing := m.listing.(incr := m.listing.incr + [name]), incrSeq := m.incrSeq + 1, dirty := true)
  }

  /** getNewBaseFileNameAndMarkPreAsHistory */
  function WithNewBase(m: Manifest, rdb: bool): Manifest {
    var previous := if m.listing.base.Some? then [m.listing.base.value] else [];
    m.(listing := m.listing.(base := Some(Base(m.baseSeq + 1, rdb)), history := previous + m.listing.history),
       baseSeq := m.baseSeq + 1, dirty := true)
  }

  /** markRewrittenIncrAofAsHistory while a file is open for writing: all but the last. */
  function RewrittenAsHistory(m: Manifest): Manifest {
    var l := m.listing;
    if l.incr == [] then m
    else
      var n := |l.incr| - 1;
      m.(listing := l.(incr := l.incr[n..], history := l.incr[..n] + l.history), dirty := true)
  }

  /** How writeAofManifestFile can end: the new text is in place; or an error before the
      rename; or an error after it, when the directory could not be synced. */
  datatype Persist = Written | FailedBefore | FailedAfter

  /** persistAofManifest: the manifest file afterwards. */
  function PersistedListing(disk: Listing, m: Manifest, p: Persist): Listing {
    if !m.dirty || p.FailedBefore? then disk else m.listing
  }

  predicate PersistOk(m: Manifest, p: Persist) {
    !m.dirty || p.Written?
  }

  // ---------------------------------------------------------------- feeding and flushing

  /** Commands are executed, and feedAppendOnlyFile puts their records into the buffer: a single
      command, or a transaction from MULTI to EXEC. */
  function Exec(s: State, unit: seq<Call>): State {
    var rs := FeedRecords(s.selected, unit);
    s.(executed := s.executed + Effects(unit), fed := s.fed + rs, buf := s.buf + Print(rs),
       selected := SelectedAfter(s.selected, unit))
  }

  /** The open file and the buffer, as flushAppendOnlyFile works on them. */
  function OpenLog(s: State): AofFlush.Log {
    AofFlush.Log(AofFlush.File(Content(s), s.pos, s.append), s.buf, s.size, true, Print(s.fed))
  }

  function WithLog(s: State, l: AofFlush.Log): State {
    s.(files := s.files[s.fd := Log(l.file.content)], pos := l.file.pos, buf := l.buf, size := l.lastIncrSize)
  }

  /** What can happen to flushAppendOnlyFile: the answers of write(2), and whether a short write
      can be truncated away. */
  datatype FlushOutcome = FlushOutcome(answers: seq<AofFlush.Answer>, truncated: bool)

  function Flush(s: State, o: FlushOutcome): State {
    WithLog(s, AofFlush.Flush(OpenLog(s), AofFlush.Total(o.answers, |s.buf|), o.truncated))
  }

  /** While the buffer is being written, k bytes of it are in the file. */
  function Wrote(s: State, k: nat): State
    requires k <= |s.buf|
  {
    WithLog(s, OpenLog(s).(file := AofFlush.WriteTo(OpenLog(s).file, s.buf[..k])))
  }

  /** The states after each write(2), and the end. */
  function FlushStates(s: State, o: FlushOutcome): seq<State> {
    var marks := AofFlush.Marks(o.answers, 0, |s.buf|);
    seq(|marks|, i requires 0 <= i < |marks| => Wrote(s, marks[i])) + [Flush(s, o)]
  }

  // ---------------------------------------------------------------- the rewrite

  /** The new INCR file is open: at its start, without O_APPEND, and what is left in the buffer
      goes to it. */
  function Switched(s: State, m: Manifest): State {
    s.(manifest := m.(dirty := false), fd := Incr(m.incrSeq), pos := 0, append := false, size := 0,
       fed := s.fed[AofLoadProofs.Whole(s.fed, |Content(s)|)..])
  }

  /** openNewIncrAofForAppend: open(2) with O_TRUNC|O_CREAT, then persist; on failure the
      server keeps its manifest and its file. */
  function OpenNewIncr(s: State, created: bool, p: Persist): State {
    var m := WithNewIncr(s.manifest);
    if !created then s
    else
      var s1 := s.(files := s.files[Incr(m.incrSeq) := Log("")], listing := PersistedListing(s.listing, m, p));
      if PersistOk(m, p) then Switched(s1, m) else s1
  }

  predicate OpenedNewIncr(s: State, created: bool, p: Persist) {
    created && PersistOk(WithNewIncr(s.manifest), p)
  }

  /** rewriteAppendOnlyFileBackground forgets the selected database before it flushes. */
  function Deselect(s: State): State {
    s.(selected := None)
  }

  /** What can happen to it then: the forced flush, the new INCR file, fork(2). */
  datatype StartOutcome = StartOutcome(flush: FlushOutcome, created: bool, persist: Persist, forked: bool, rdb: bool)

  function StartRewrite(s: State, o: StartOutcome): State {
    if s.child.Some? then s
    else
      var s1 := Flush(Deselect(s), o.flush);
      var s2 := OpenNewIncr(s1, o.created, o.persist);
      if OpenedNewIncr(s1, o.created, o.persist) && o.forked then Forked(s2, o.rdb) else s2
  }

  function Forked(s: State, rdb: bool): State {
    s.(child := Some(Child(s.executed, rdb, s.fed)))
  }

  /** What can happen to backgroundRewriteDoneHandler: how the child ended, rename(2) of its
      file, the manifest, the removal of the new BASE file after a failure, whether old files
      are deleted at all and which unlinks worked, and the manifest again. */
  datatype DoneOutcome = DoneOutcome(success: bool, renamed: bool, persist: Persist, removed: bool,
                                     gc: bool, unlinked: set<FileName>, cleaned: Persist)

  /** aofDelHistoryFiles */
  function DeleteHistory(s: State, gc: bool, unlinked: set<FileName>, p: Persist): State {
    var history := s.manifest.listing.history;
    if !gc || history == [] then s
    else
      var m := s.manifest.(listing := s.manifest.listing.(history := []), dirty := true);
      s.(files := s.files - (set f | f in history && f in unlinked),
         listing := PersistedListing(s.listing, m, p),
         manifest := m.(dirty := !PersistOk(m, p)))
  }

  /** backgroundRewriteDoneHandler */
  function Done(s: State, o: DoneOutcome): State {
    if s.child.None? then s
    else if !o.success || !o.renamed then s.(child := None)
    else
      var c := s.child.value;
      var m1 := WithNewBase(s.manifest, c.rdb);
      var name := m1.listing.base.value;
      var m := RewrittenAsHistory(m1);
      var s1 := s.(child := None, files := s.files[name := Dataset(c.snapshot)],
                   listing := PersistedListing(s.listing, m, o.persist));
      if !PersistOk(m, o.persist) then s1.(files := s1.files - if o.removed then {name} else {})
      else DeleteHistory(s1.(manifest := m.(dirty := false)), o.gc, o.unlinked, o.cleaned)
  }

  /** killAppendOnlyChild */
  function Kill(s: State): State {
    s.(child := None)
  }

  // ---------------------------------------------------------------- restart

  /** aofLoadManifestFromFile: the sequence numbers come from the entries. */
  function LoadedManifest(l: Listing): Manifest {
    Manifest(l, if l.base.Some? then l.base.value.seqno else 0,
             if l.incr == [] then 0 else l.incr[|l.incr| - 1].seqno, false)
  }

  /** The process dies and starts again: the dataset is what the files give, the last INCR file
      is cut to what was loaded from it and opened for appending. */
  function Restart(kind: Kinds, s: State): State
    requires Recovered(kind, s).Some? && s.listing.incr != []
  {
    var last := s.listing.incr[|s.listing.incr| - 1];
    var text := AofLoad.Load(kind, if last in s.files then TextOf(s.files[last]) else "").file;
    State(LoadedManifest(s.listing), last, |text|, true, |text|, "", None,
          if last == s.fd then s.fed[..AofLoadProofs.Whole(s.fed, |text|)] else [],
          Recovered(kind, s).value, None, s.files[last := Log(text)], s.listing)
  }

  // ---------------------------------------------------------------- system call by system call

  /** The states between the system calls of a rewrite start: the flush, the new file, the
      manifest, and the end of the step. */
  function StartStates(s: State, o: StartOutcome): seq<State> {
    if s.child.Some? then [s]
    else
      var s1 := Flush(Deselect(s), o.flush);
      var m := WithNewIncr(s1.manifest);
      FlushStates(Deselect(s), o.flush) +
      if !o.created then [StartRewrite(s, o)]
      else
        var s2 := s1.(files := s1.files[Incr(m.incrSeq) := Log("")]);
        [s2, s2.(listing := PersistedListing(s.listing, m, o.persist)), StartRewrite(s, o)]
  }

  /** The states while history files are deleted one by one, then the manifest. */
  function DeleteStates(s: State, gc: bool, unlinked: set<FileName>, p: Persist): seq<State> {
    var history := s.manifest.listing.history;
    if !gc || history == [] then [s]
    else
      seq(|history| + 1, j requires 0 <= j <= |history| =>
        s.(files := s.files - (set f | f in history[..j] && f in unlinked)))
      + [DeleteHistory(s, gc, unlinked, p)]
  }

  /** The states between the system calls when the child is done: the rename, the manifest,
      and then the deletions, or the removal of the new BASE file. */
  function DoneStates(s: State, o: DoneOutcome): seq<State> {
    if s.child.None? || !o.success || !o.renamed then [Done(s, o)]
    else
      var c := s.child.value;
      var m1 := WithNewBase(s.manifest, c.rdb);
      var m := RewrittenAsHistory(m1);
      var s1 := s.(child := None, files := s.files[m1.listing.base.value := Dataset(c.snapshot)]);
      var s2 := s1.(listing := PersistedListing(s.listing, m, o.persist));
      if !PersistOk(m, o.persist) then [s1, s2, Done(s, o)]
      else [s1, s2] + DeleteStates(s2.(manifest := m.(dirty := false)), o.gc, o.unlinked, o.cleaned)
  }

  datatype Step = ExecStep(unit: seq<Call>) | FlushStep(flush: FlushOutcome) | StartStep(start: StartOutcome)
                | DoneStep(done: DoneOutcome) | KillStep
                | CleanStep(gc: bool, unlinked: set<FileName>, persist: Persist)

  /** All states a step passes through; the last is where it ends. */
  function States(s: State, e: Step): (r: seq<State>)
    ensures r != []
  {
    match e
    case ExecStep(unit) => [Exec(s, unit)]
    case FlushStep(o) => FlushStates(s, o)
    case StartStep(o) => StartStates(s, o)
    case DoneStep(o) => DoneStates(s, o)
    case KillStep => [Kill(s)]
    case CleanStep(gc, unlinked, p) => DeleteStates(s, gc, unlinked, p)
  }

  function After(s: State, e: Step): State {
    var r := States(s, e); r[|r| - 1]
  }

  /** First start with an empty dataset: a BASE file and the first INCR file, opened with O_APPEND. */
  function Initial(rdb: bool): State {
    var l := Listing(Some(Base(1, rdb)), [Incr(1)], []);
    State(Manifest(l, 1, 1, false), Incr(1), 0, true, 0, "", None, [], [], None,
          map[Base(1, rdb) := Dataset([]), Incr(1) := Log("")], l)
  }
}
