/** The append-only files as the server runs them: the functions of aof.c that update
    server.aof_* and the disk step by step.  Every system call is recorded in `trace`. */
module AofServer {
  import opened Text
  import opened Seqs
  import opened AofFormat
  import AofLoad
  import AofLoadProofs
  import AofFlush
  import opened AofStream
  import opened AofFeed
  import opened AofRewrite
  import opened AofRewriteProofs
  import AofFiles

  class Server {
    var manifest: Manifest
    // the open file: its name, the offset and mode of its descriptor, and its known size
    var fd: FileName
    var pos: nat
    var append: bool
    var size: nat
    var buf: string
    /** aof_selected_db, None for -1. */
    var selected: Option<nat>
    var child: Option<Child>
    // the disk
    var files: Files
    var listing: Listing
    /** The dataset, as the data commands that made it, each in its database. */
    var executed: seq<Effect>
    /** The records meant for the open file, written or buffered. */
    var fed: seq<Record>
    /** The states the server has been in after each system call. */
    ghost var trace: seq<State>

    ghost function View(): State
      reads this
    {
      State(manifest, fd, pos, append, size, buf, selected, fed, executed, child, files, listing)
    }

    /** aofOpenIfNeededOnServerStart with an empty manifest and an empty dataset. */
    constructor (ghost kind: Kinds, rdb: bool)
      ensures View() == Initial(rdb) && Inv(kind, View()) && trace == []
    {
      listing := Listing(Some(Base(1, rdb)), [Incr(1)], []);
      manifest := Manifest(Listing(Some(Base(1, rdb)), [Incr(1)], []), 1, 1, false);
      fd, pos, append, size, buf, selected, fed, executed, child := Incr(1), 0, true, 0, "", None, [], [], None;
      files := map[Base(1, rdb) := Dataset([]), Incr(1) := Log("")];
      trace := [];
      new;
      InitialInv(kind, rdb);
    }

    method Record()
      modifies this`trace
      ensures trace == old(trace) + [View()]
    {
      trace := trace + [View()];
    }

    /** Commands are executed, and feedAppendOnlyFile appends their records to the buffer. */
    method Feed(ghost kind: Kinds, unit: seq<Call>)
      modifies this
      ensures View() == Exec(old(View()), unit) && trace == old(trace) + [View()]
      ensures old(Inv(kind, View())) && GoodUnit(kind, unit) ==> Inv(kind, View())
    {
      hide Inv, GoodUnit, Print, FeedRecords, SelectedAfter, Effects;
      if Inv(kind, View()) && GoodUnit(kind, unit) { ExecKeeps(kind, View(), unit); }
      executed := executed + Effects(unit);
      fed := fed + FeedRecords(selected, unit);
      buf, selected := FeedUnit(buf, selected, unit);
      Record();
    }

    /** One write(2) of the buffer's bytes from `done` up to `next`. */
    method WriteChunk(ghost s0: State, done: nat, next: nat)
      requires s0.fd in s0.files && s0.files[s0.fd].Log? && done <= next <= |s0.buf| && View() == Wrote(s0, done) && buf == s0.buf
      modifies this`files, this`pos
      ensures View() == Wrote(s0, next) && buf == s0.buf
    {
      hide Print, AofFlush.WriteTo, Wrote;
      WroteMore(s0, done, next);
      var file := AofFlush.WriteTo(AofFlush.File(TextOf(files[fd]), pos, append), buf[done..next]);
      files, pos := files[fd := Log(file.content)], file.pos;
    }

    /** aofWrite: retry short and interrupted writes until an error; each write(2) is recorded. */
    method WriteBuffer(answers: seq<AofFlush.Answer>) returns (nwritten: int)
      requires fd in files && files[fd].Log?
      modifies this`files, this`pos, this`trace
      ensures View() == Wrote(old(View()), AofFlush.Total(answers, |buf|))
      ensures nwritten == if AofFlush.Total(answers, |buf|) == 0 && buf != "" then -1 else AofFlush.Total(answers, |buf|)
      ensures trace == old(trace) + Writings(old(View()), AofFlush.Marks(answers, 0, |buf|))
    {
      hide Print, AofFlush.Marks, AofFlush.Total, Wrote, Writings;
      ghost var s0 := View();
      ghost var passed := trace + Writings(s0, AofFlush.Marks(answers, 0, |buf|));
      var done, rest := 0, answers;
      WroteNothing(s0);
      while done < |buf|
        invariant 0 <= done <= |buf| && buf == s0.buf && View() == Wrote(s0, done)
        invariant done + AofFlush.Total(rest, |buf| - done) == AofFlush.Total(answers, |buf|)
        invariant trace + Writings(s0, AofFlush.Marks(rest, done, |buf|)) == passed
        decreases |buf| - done, |rest|
      {
        var failed, next, later := AnswerOf(rest, done, |buf|);
        if failed {
          NoWritings(trace, s0);
          return if done == 0 then -1 else done;
        }
        MoreWritings(trace, s0, next, AofFlush.Marks(later, next, |buf|));
        WriteChunk(s0, done, next);
        Record();
        done, rest := next, later;
      }
      AofFlush.MarksEnd(rest, |buf|);
      NoWritings(trace, s0);
      nwritten := done;
    }

    /** flushAppendOnlyFile with a policy other than "always". */
    method FlushFile(o: FlushOutcome)
      requires fd in files && files[fd].Log?
      modifies this`files, this`pos, this`size, this`buf, this`trace
      ensures View() == Flush(old(View()), o) && trace == old(trace) + FlushStates(old(View()), o)
    {
      hide Print, AofFlush.WriteTo, AofFlush.Marks, AofFlush.Total, FlushStates, Writings;
      FlushStatesAre(View(), o);
      var nwritten := WriteBuffer(o.answers);
      if nwritten != |buf| {
        if nwritten != -1 && o.truncated {
          files := files[fd := Log(AofFlush.TruncateTo(AofFlush.File(TextOf(files[fd]), pos, append), size).content)];
          nwritten := -1;
        }
        if nwritten > 0 {
          size := size + nwritten;
          buf := buf[nwritten..];
        }
      } else {
        size := size + nwritten;
        buf := "";
      }
      Record();
      Associates(old(trace), Writings(old(View()), AofFlush.Marks(o.answers, 0, |old(buf)|)), [View()]);
    }

    /** persistAofManifest and writeAofManifestFile */
    method PersistManifest(m: Manifest, outcome: Persist) returns (ok: bool)
      modifies this`listing
      ensures listing == PersistedListing(old(listing), m, outcome) && ok == PersistOk(m, outcome)
    {
      ok := true;
      if m.dirty {
        if !outcome.FailedBefore? { listing := m.listing; }
        ok := outcome.Written?;
      }
    }

    /** openNewIncrAofForAppend */
    method OpenNewIncrAofForAppend(created: bool, outcome: Persist) returns (ok: bool)
      modifies this
      ensures View() == OpenNewIncr(old(View()), created, outcome)
      ensures ok == OpenedNewIncr(old(View()), created, outcome)
      ensures !created ==> trace == old(trace)
      ensures created ==>
        var m := WithNewIncr(old(manifest));
        var s := old(View()).(files := old(files)[Incr(m.incrSeq) := Log("")]);
        trace == old(trace) + [s, s.(listing := PersistedListing(old(listing), m, outcome))]
    {
      hide AofLoadProofs.Whole, OpenNewIncr, Switched, WithNewIncr, Print;
      ghost var s0 := View();
      OpenCases(s0, outcome);
      NotOpened(s0, outcome);
      NewIncrIsDirty(manifest);
      var tempAm := WithNewIncr(manifest);
      var name := Incr(tempAm.incrSeq);
      if !created { return false; }
      files := files[name := Log("")];
      Record();
      ok := PersistManifest(tempAm, outcome);
      Record();
      if !ok { return; }
      SwitchTo(tempAm);
    }

    /** The new INCR file becomes the open one. */
    method SwitchTo(m: Manifest)
      modifies this`manifest, this`fd, this`pos, this`append, this`size, this`fed
      ensures View() == Switched(old(View()), m)
    {
      hide AofLoadProofs.Whole, Switched, Print;
      SwitchedIs(View(), m);
      fed := fed[AofLoadProofs.Whole(fed, |if fd in files then TextOf(files[fd]) else ""|)..];
      fd, pos, append, size := Incr(m.incrSeq), 0, false, 0;
      manifest := m.(dirty := false);
    }

    /** The forced flush of a rewrite start, after the selected database is forgotten. */
    method ForcedFlush(o: FlushOutcome)
      requires fd in files && files[fd].Log?
      modifies this`selected, this`files, this`pos, this`size, this`buf, this`trace
      ensures View() == Flush(Deselect(old(View())), o) && trace == old(trace) + FlushStates(Deselect(old(View())), o)
    {
      hide Flush, FlushStates;
      selected := None;
      FlushFile(o);
    }

    method Fork(rdb: bool)
      modifies this`child
      ensures View() == Forked(old(View()), rdb)
    {
      child := Some(Child(executed, rdb, fed));
    }

    /** rewriteAppendOnlyFileBackground */
    method RewriteBackground(ghost kind: Kinds, o: StartOutcome) returns (ok: bool)
      requires fd in files && files[fd].Log?
      modifies this
      ensures View() == StartRewrite(old(View()), o)
      ensures ok <==> old(child).None? && child.Some?
      ensures trace == old(trace) + StartStates(old(View()), o)
      ensures old(Inv(kind, View()) && SoundStart(kind, View(), o)) ==> Inv(kind, View())
    {
      hide Inv, CrashSafe, OpenNewIncr, OpenedNewIncr, WithNewIncr, Flush, FlushStates, SoundStart, StartRewrite, StartStates, PersistedListing,
        Forked, Deselect;
      if Inv(kind, View()) && SoundStart(kind, View(), o) { StartKeeps(kind, View(), o); }
      StartStatesAre(View(), o);
      AofFiles.StartDoes(View(), o);
      if child.Some? { Record(); return false; }
      ForcedFlush(o.flush);
      ghost var passed := if o.created then Openings(View(), o.persist) else [];
      PlusNothing(trace);
      ok := OpenNewIncrAofForAppend(o.created, o.persist);
      if ok && o.forked {
        Fork(o.rdb);
      } else {
        ok := false;
      }
      assert ok <==> o.created && o.persist.Written? && o.forked by { OpenedIff(old(View()), o); }
      Record();
      Regroup(old(trace), FlushStates(Deselect(old(View())), o.flush), passed, [View()]);
    }

    /** markRewrittenIncrAofAsHistory: from the tail, skipping the file being written, each
        INCR entry moves to the head of the history. */
    method MarkRewrittenIncrAofAsHistory(m: Manifest) returns (r: Manifest)
      ensures r == RewrittenAsHistory(m)
    {
      var l := m.listing;
      if l.incr == [] { return m; }
      var j := |l.incr| - 1;
      var history := l.history;
      assert l.incr[j..j] == [];
      while j > 0
        invariant 0 <= j <= |l.incr| - 1
        invariant history == l.incr[j..|l.incr| - 1] + l.history
      {
        j := j - 1;
        history := [l.incr[j]] + history;
        assert l.incr[j..|l.incr| - 1] == [l.incr[j]] + l.incr[j + 1..|l.incr| - 1];
      }
      r := m.(listing := l.(incr := l.incr[|l.incr| - 1..], history := history), dirty := true);
    }

    /** The loop of aofDelHistoryFiles: one unlink per history file. */
    method UnlinkHistory(history: seq<FileName>, unlinked: set<FileName>)
      modifies this`files, this`trace
      ensures files == old(files) - (set f | f in history && f in unlinked)
      ensures trace == old(trace) + Unlinkings(old(View()), history, unlinked)
    {
      ghost var s0 := View();
      ghost var passed := Unlinkings(s0, history, unlinked);
      var j := 0;
      while j < |history|
        invariant 0 <= j <= |history|
        invariant files == s0.files - (set f | f in history[..j] && f in unlinked)
        invariant trace == old(trace) + passed[..j]
      {
        if history[j] in unlinked { files := files - {history[j]}; }
        assert history[..j + 1] == history[..j] + [history[j]];
        assert files == s0.files - (set f | f in history[..j + 1] && f in unlinked);
        assert View() == passed[j];
        Record();
        j := j + 1;
        assert passed[..j] == passed[..j - 1] + [passed[j - 1]];
      }
      assert history[..j] == history && passed[..j] == passed;
    }

    /** aofDelHistoryFiles */
    method DelHistoryFiles(ghost kind: Kinds, gc: bool, unlinked: set<FileName>, outcome: Persist)
      modifies this
      ensures View() == DeleteHistory(old(View()), gc, unlinked, outcome)
      ensures trace == old(trace) + DeleteStates(old(View()), gc, unlinked, outcome)
      ensures old(Inv(kind, View())) ==> Inv(kind, View())
      // no unlinked file is one the manifest on disk loads
      ensures old(Inv(kind, View())) ==> forall f :: f in old(files) && f !in files ==> f !in LoadList(old(listing))
    {
      hide Inv, CrashSafe, LoadList, PersistedListing, PersistOk, Unlinkings, DeleteStates;
      ghost var s0 := View();
      DeleteStatesAre(s0, gc, unlinked, outcome);
      DeletionIsSafe(kind, s0, gc, unlinked, outcome);
      Record();
      var history := manifest.listing.history;
      if !gc || history == [] { return; }
      UnlinkHistory(history, unlinked);
      manifest := manifest.(listing := manifest.listing.(history := []), dirty := true);
      var ok := PersistManifest(manifest, outcome);
      if ok { manifest := manifest.(dirty := false); }
      Record();
      Regroup(old(trace), [s0], Unlinkings(s0, history, unlinked), [View()]);
    }

    /** The child's file is renamed to the next BASE file, and a manifest that names it is persisted. */
    method NameBase(c: Child, outcome: Persist) returns (ok: bool, m: Manifest)
      modifies this
      ensures m == RewrittenAsHistory(WithNewBase(old(manifest), c.rdb)) && ok == PersistOk(m, outcome)
      ensures View() == Named(old(View()), c).(listing := PersistedListing(old(listing), m, outcome))
      ensures trace == old(trace) + [Named(old(View()), c), View()]
    {
      hide RewrittenAsHistory, PersistedListing, PersistOk;
      child := None;
      var tempAm := WithNewBase(manifest, c.rdb);
      files := files[Base(manifest.baseSeq + 1, c.rdb) := Dataset(c.snapshot)];
      Record();
      m := MarkRewrittenIncrAofAsHistory(tempAm);
      ok := PersistManifest(m, outcome);
      Record();
    }

    /** The child succeeded: its file becomes the BASE file and the history goes, or all is taken back. */
    method InstallBase(ghost kind: Kinds, c: Child, o: DoneOutcome)
      requires child == Some(c) && o.success && o.renamed
      modifies this
      ensures View() == Done(old(View()), o)
      ensures trace == old(trace) + DoneStates(old(View()), o)
    {
      hide DeleteHistory, DeleteStates, Inv, RewrittenAsHistory, WithNewBase, PersistedListing, PersistOk, LoadList, Done, DoneStates;
      DoneStatesAre(View(), o);
      var name := Base(manifest.baseSeq + 1, c.rdb);
      var ok, m := NameBase(c, o.persist);
      if !ok {
        files := files - if o.removed then {name} else {};
        Record();
        return;
      }
      manifest := m.(dirty := false);
      DelHistoryFiles(kind, o.gc, o.unlinked, o.cleaned);
    }

    /** backgroundRewriteDoneHandler */
    method RewriteDone(ghost kind: Kinds, o: DoneOutcome)
      requires child.Some?
      modifies this
      ensures View() == Done(old(View()), o)
      ensures trace == old(trace) + DoneStates(old(View()), o)
      ensures old(Inv(kind, View()) && SoundDone(kind, View(), o)) ==> Inv(kind, View())
    {
      hide Inv, CrashSafe, SoundDone, DeleteHistory, DeleteStates, RewrittenAsHistory, PersistedListing, PersistOk;
      if Inv(kind, View()) && SoundDone(kind, View(), o) { DoneKeeps(kind, View(), o); }
      if o.success && o.renamed {
        InstallBase(kind, child.value, o);
      } else {
        child := None;
        Record();
      }
    }

    /** Loading on server start, and aofOpenIfNeededOnServerStart: the last INCR file is opened with
        O_APPEND.  A server that cannot load its files exits, but has cut a truncated one. */
    method StartServer(kind: Kinds) returns (ok: bool)
      requires listing.incr != []
      modifies this
      ensures ok <==> Recovered(kind, old(View())).Some?
      ensures ok ==> View() == Restart(kind, old(View()))
      ensures !ok ==> View() == old(View()).(files := LoadDisk(kind, old(files), LoadList(old(listing))))
      ensures old(CrashSafe(kind, View()) && Resumable(kind, View())) ==> Inv(kind, View())
    {
      hide Inv, CrashSafe, Resumable, LoadFiles, LoadList, LoadDisk, AofLoad.Load, AofLoadProofs.Whole, Recovered, Restart, LoadedManifest;
      ghost var s0 := View();
      if CrashSafe(kind, s0) && Resumable(kind, s0) { RestartKeeps(kind, s0); }
      var loaded, text, disk := LoadAppendOnlyFiles(kind, files, LoadList(listing));
      RestartFields(kind, s0);
      if loaded.None? {
        files := disk;
        return false;
      }
      Adopt(listing.incr[|listing.incr| - 1], loaded.value, text);
      ok := true;
    }

    /** The server takes over what it has loaded. */
    method Adopt(last: FileName, loaded: seq<Effect>, text: string)
      modifies this
      ensures View() == State(LoadedManifest(old(listing)), last, |text|, true, |text|, "", None,
        if last == old(fd) then old(fed)[..AofLoadProofs.Whole(old(fed), |text|)] else [],
        loaded, None, old(files)[last := Log(text)], old(listing))
    {
      hide AofLoadProofs.Whole, LoadedManifest;
      fed := if last == fd then fed[..AofLoadProofs.Whole(fed, |text|)] else [];
      manifest := LoadedManifest(listing);
      fd, pos, append, size, buf, selected := last, |text|, true, |text|, "", None;
      executed, child, files := loaded, None, files[last := Log(text)];
    }
  }

  /** The answer of write(2), tried again after an interrupt: an error, or the bytes from `done` up
      to `next` are taken.  A device that answers no more takes the rest. */
  method AnswerOf(answers: seq<AofFlush.Answer>, done: nat, len: nat)
    returns (failed: bool, next: nat, later: seq<AofFlush.Answer>)
    requires done < len
    ensures failed ==> AofFlush.Marks(answers, done, len) == [] && AofFlush.Total(answers, len - done) == 0
    ensures !failed ==>
      && done <= next <= len && (done < next || |later| < |answers|)
      && AofFlush.Marks(answers, done, len) == [next] + AofFlush.Marks(later, next, len)
      && AofFlush.Total(answers, len - done) == next - done + AofFlush.Total(later, len - next)
  {
    hide AofFlush.Marks, AofFlush.Total;
    later := answers;
    while later != [] && later[0].Interrupted?
      invariant |later| <= |answers|
      invariant AofFlush.Marks(later, done, len) == AofFlush.Marks(answers, done, len)
      invariant AofFlush.Total(later, len - done) == AofFlush.Total(answers, len - done)
    {
      AofFlush.MarksStep(later, done, len);
      later := later[1..];
    }
    AofFlush.MarksStep(later, done, len);
    AofFlush.MarksEnd(later, len);
    failed, next := false, len;
    if later != [] {
      if later[0].Failed? { return true, done, later; }
      if later[0].n < len - done { next := done + later[0].n; }
      later := later[1..];
    }
  }

  /** loadAppendOnlyFiles: one file after the other; a truncated one must be the last.  `text` is
      what the load leaves of the last file, and `disk` what it leaves of them all. */
  method LoadAppendOnlyFiles(kind: Kinds, files: Files, names: seq<FileName>)
    returns (r: Option<seq<Effect>>, text: string, disk: Files)
    ensures r == LoadFiles(kind, files, names) && disk == LoadDisk(kind, files, names)
    ensures r.Some? && names != [] ==>
      var last := names[|names| - 1];
      last in files && text == AofLoad.Load(kind, TextOf(files[last])).file
  {
    hide AofLoad.Load, LoadFiles, ReadAll, Place, Read, ReadLast, FilesRead, AfterReading, LeftOf;
    text, disk := "", files;
    var j := 0;
    while j < |names|
      invariant 0 <= j <= |names|
      invariant forall i :: 0 <= i < j ==> names[i] in files
    {
      if names[j] !in files {
        Missing(kind, files, names, j);
        return None, "", files;
      }
      j := j + 1;
    }
    var executed: seq<Effect> := [];
    j := 0;
    assert names[0..] == names && names[..0] == [];
    PlusNeutral(LoadFiles(kind, files, names));
    NothingRead(kind, files);
    while j < |names|
      invariant 0 <= j <= |names|
      invariant Plus(Some(executed), LoadFiles(kind, files, names[j..])) == LoadFiles(kind, files, names)
      invariant j + FilesRead(kind, files, names[j..]) == FilesRead(kind, files, names)
      invariant disk == AfterReading(kind, files, names[..j])
      invariant j == |names| && names != [] ==> text == AofLoad.Load(kind, TextOf(files[names[j - 1]])).file
    {
      LoadFront(kind, files, names, j);
      var one, lastText := LoadOne(kind, files[names[j]], j + 1 == |names|);
      OneMoreRead(kind, files, names, j);
      disk := disk[names[j] := if files[names[j]].Log? then Log(lastText) else files[names[j]]];
      if one.None? {
        return None, "", disk;
      }
      PlusAssociates(Some(executed), one, LoadFiles(kind, files, names[j + 1..]));
      executed, text := executed + one.value, lastText;
      j := j + 1;
    }
    NoMore(kind, files, executed);
    assert names[j..] == [] && names[..j] == names;
    r := Some(executed);
  }

  /** One file, replayed by a new client in database 0. */
  method LoadOne(kind: Kinds, data: Data, lastFile: bool) returns (r: Option<seq<Effect>>, text: string)
    ensures r == (if lastFile then ReadLast(kind, data) else Read(kind, data)) && text == AofLoad.Load(kind, TextOf(data)).file
  {
    hide AofLoad.Load, Place;
    var ret := AofLoad.LoadSingleFile(kind, TextOf(data));
    text := ret.file;
    if data.Dataset? { return Some(data.effects), text; }
    if (ret.status.AofTruncated? && !lastFile) || ret.status.AofFailed? { return None, text; }
    r := Some(Place(ret.executed, 0));
  }

  lemma NothingRead(kind: Kinds, files: Files)
    ensures AfterReading(kind, files, []) == files
  {
  }

  /** Reading one more file, and whether another one follows. */
  lemma OneMoreRead(kind: Kinds, files: Files, names: seq<FileName>, j: nat)
    requires j < |names| && names[j] in files
    ensures AfterReading(kind, files, names[..j + 1]) ==
      AfterReading(kind, files, names[..j])[names[j] := LeftOf(kind, files[names[j]])]
    ensures FilesRead(kind, files, names[j..]) ==
      1 + if Read(kind, files[names[j]]).Some? then FilesRead(kind, files, names[j + 1..]) else 0
    ensures LeftOf(kind, files[names[j]]) ==
      if files[names[j]].Log? then Log(AofLoad.Load(kind, TextOf(files[names[j]])).file) else files[names[j]]
    ensures j + 1 == |names| ==> FilesRead(kind, files, names[j + 1..]) == 0
  {
    hide Read, AofLoad.Load;
    assert names[..j + 1] == names[..j] + [names[j]];
    assert names[j..][1..] == names[j + 1..];
  }

  lemma PlusNeutral(a: Option<seq<Effect>>)
    ensures Plus(Some([]), a) == a
  {
    if a.Some? { assert [] + a.value == a.value; }
  }

  lemma NoMore(kind: Kinds, files: Files, executed: seq<Effect>)
    ensures Plus(Some(executed), LoadFiles(kind, files, [])) == Some(executed)
  {
    PlusNothing(executed);
  }

  lemma {:induction false} MissingAmong(kind: Kinds, files: Files, names: seq<FileName>, j: nat)
    requires j < |names| && names[j] !in files
    ensures ReadAll(kind, files, names).None?
  {
    hide Read;
    if j > 0 { MissingAmong(kind, files, names[1..], j - 1); }
  }

  lemma Missing(kind: Kinds, files: Files, names: seq<FileName>, j: nat)
    requires j < |names| && names[j] !in files
    ensures LoadFiles(kind, files, names).None?
  {
    hide ReadLast, ReadAll;
    var n := |names| - 1;
    if j < n { MissingAmong(kind, files, names[..n], j); }
  }

  /** The first of the remaining files. */
  lemma LoadFront(kind: Kinds, files: Files, names: seq<FileName>, j: nat)
    requires j < |names| && names[j] in files
    ensures LoadFiles(kind, files, names[j..]) ==
      Plus(if j + 1 == |names| then ReadLast(kind, files[names[j]]) else Read(kind, files[names[j]]),
           LoadFiles(kind, files, names[j + 1..]))
  {
    hide Read, ReadLast;
    var rest := names[j..];
    if j + 1 == |names| {
      assert rest == [names[j]] && rest[..0] == [] && names[j + 1..] == [];
      var l := ReadLast(kind, files[names[j]]);
      if l.Some? { assert [] + l.value == l.value && l.value + [] == l.value; }
    } else {
      var n := |rest| - 1;
      assert rest[1..] == names[j + 1..] && rest[..n][1..] == rest[1..][..n - 1];
      if rest[n] in files {
        PlusAssociates(Read(kind, files[names[j]]), ReadAll(kind, files, rest[1..][..n - 1]), ReadLast(kind, files[rest[n]]));
      }
    }
  }

  lemma RestartFields(kind: Kinds, s: State)
    requires s.listing.incr != []
    ensures var names, last := LoadList(s.listing), s.listing.incr[|s.listing.incr| - 1];
      && names != [] && names[|names| - 1] == last
      && Recovered(kind, s) == LoadFiles(kind, s.files, names)
      && (last in s.files && Recovered(kind, s).Some? ==>
            var text := AofLoad.Load(kind, TextOf(s.files[last])).file;
            Restart(kind, s) == State(LoadedManifest(s.listing), last, |text|, true, |text|, "", None,
              if last == s.fd then s.fed[..AofLoadProofs.Whole(s.fed, |text|)] else [],
              Recovered(kind, s).value, None, s.files[last := Log(text)], s.listing))
  {
    hide LoadFiles, AofLoad.Load, AofLoadProofs.Whole;
  }

  // ---------------------------------------------------------------- the states passed through

  /** The states while a new INCR file is created and listed. */
  lemma OpenedIff(s: State, o: StartOutcome)
    ensures OpenedNewIncr(Flush(Deselect(s), o.flush), o.created, o.persist) <==> o.created && o.persist.Written?
  {
    hide AofFlush.Flush, Content;
  }

  ghost function Openings(s: State, p: Persist): seq<State> {
    var m := WithNewIncr(s.manifest);
    var s2 := s.(files := s.files[Incr(m.incrSeq) := Log("")]);
    [s2, s2.(listing := PersistedListing(s.listing, m, p))]
  }

  /** A rewrite start, in the server's own terms. */
  lemma StartStatesAre(s: State, o: StartOutcome)
    ensures s.child.Some? ==> StartRewrite(s, o) == s && StartStates(s, o) == [s]
    ensures s.child.None? ==>
      var s1 := Flush(Deselect(s), o.flush);
      var s2 := OpenNewIncr(s1, o.created, o.persist);
      && StartRewrite(s, o) == (if OpenedNewIncr(s1, o.created, o.persist) && o.forked then Forked(s2, o.rdb) else s2)
      && StartStates(s, o) ==
           FlushStates(Deselect(s), o.flush) + (if o.created then Openings(s1, o.persist) else []) + [StartRewrite(s, o)]
  {
    FlushIsLocal(Deselect(s), o.flush);
    hide Flush, FlushStates, OpenNewIncr, OpenedNewIncr, WithNewIncr, PersistedListing;
    PlusNothing(FlushStates(Deselect(s), o.flush));
  }

  lemma NewIncrIsDirty(m: Manifest)
    ensures WithNewIncr(m).dirty
  {
  }

  lemma SwitchedIs(s: State, m: Manifest)
    ensures Switched(s, m) == s.(manifest := m.(dirty := false), fd := Incr(m.incrSeq), pos := 0, append := false, size := 0,
      fed := s.fed[AofLoadProofs.Whole(s.fed, |if s.fd in s.files then TextOf(s.files[s.fd]) else ""|)..])
  {
    hide AofLoadProofs.Whole, TextOf;
  }

  /** The child's file is in place. */
  ghost function Named(s: State, c: Child): State {
    s.(child := None, files := s.files[Base(s.manifest.baseSeq + 1, c.rdb) := Dataset(c.snapshot)])
  }

  /** The states of a finished rewrite, in the server's own terms. */
  lemma DoneStatesAre(s: State, o: DoneOutcome)
    requires s.child.Some? && o.success && o.renamed
    ensures var c := s.child.value;
      var m, name := RewrittenAsHistory(WithNewBase(s.manifest, c.rdb)), Base(s.manifest.baseSeq + 1, c.rdb);
      var s1 := Named(s, c);
      var s2 := s1.(listing := PersistedListing(s.listing, m, o.persist));
      if !PersistOk(m, o.persist) then
        Done(s, o) == s2.(files := s2.files - if o.removed then {name} else {}) && DoneStates(s, o) == [s1, s2, Done(s, o)]
      else
        var s3 := s2.(manifest := m.(dirty := false));
        && Done(s, o) == DeleteHistory(s3, o.gc, o.unlinked, o.cleaned)
        && DoneStates(s, o) == [s1, s2] + DeleteStates(s3, o.gc, o.unlinked, o.cleaned)
  {
    hide RewrittenAsHistory, DeleteHistory, DeleteStates, PersistedListing, PersistOk;
  }

  /** The states while the buffer is being written. */
  ghost function Writings(s: State, marks: seq<nat>): seq<State>
    requires forall i :: 0 <= i < |marks| ==> marks[i] <= |s.buf|
  {
    seq(|marks|, i requires 0 <= i < |marks| => Wrote(s, marks[i]))
  }

  lemma FlushStatesAre(s: State, o: FlushOutcome)
    ensures FlushStates(s, o) == Writings(s, AofFlush.Marks(o.answers, 0, |s.buf|)) + [Flush(s, o)]
  {
    hide Flush, Wrote, AofFlush.Marks;
  }

  lemma WroteNothing(s: State)
    requires s.fd in s.files && s.files[s.fd].Log?
    ensures Wrote(s, 0) == s
  {
    hide Print;
    assert s.buf[..0] == "";
    assert s.files[s.fd := Log(s.files[s.fd].text)] == s.files;
  }

  lemma NoWritings(t: seq<State>, s: State)
    ensures t + Writings(s, []) == t
  {
  }

  lemma MoreWritings(t: seq<State>, s: State, next: nat, marks: seq<nat>)
    requires next <= |s.buf| && forall i :: 0 <= i < |marks| ==> marks[i] <= |s.buf|
    ensures Writings(s, [next] + marks) == [Wrote(s, next)] + Writings(s, marks)
    ensures t + Writings(s, [next] + marks) == t + [Wrote(s, next)] + Writings(s, marks)
    ensures [next] + [] == [next]
  {
    hide Wrote;
    assert Writings(s, [next] + marks) == [Wrote(s, next)] + Writings(s, marks);
  }

  /** Two writes in a row are one. */
  lemma WroteMore(s: State, done: nat, next: nat)
    requires s.fd in s.files && s.files[s.fd].Log? && done <= next <= |s.buf|
    ensures var s1 := Wrote(s, done);
      var file := AofFlush.WriteTo(AofFlush.File(Content(s1), s1.pos, s1.append), s.buf[done..next]);
      && s1.fd == s.fd && s.fd in s1.files && s1.files[s.fd].Log? && Content(s1) == TextOf(s1.files[s.fd])
      && Wrote(s, next) == s1.(files := s1.files[s.fd := Log(file.content)], pos := file.pos)
  {
    AofFlush.WriteTwice(OpenLog(s).file, s.buf[..done], s.buf[done..next]);
    assert s.buf[..done] + s.buf[done..next] == s.buf[..next];
    AofFlush.WriteMode(OpenLog(s).file, s.buf[..done]);
    hide AofFlush.WriteTo, Print;
  }

  /** Deleting keeps the invariant, and no file that goes is one the manifest on disk loads. */
  lemma DeletionIsSafe(kind: Kinds, s: State, gc: bool, unlinked: set<FileName>, p: Persist)
    ensures Inv(kind, s) ==> Inv(kind, DeleteHistory(s, gc, unlinked, p))
    ensures Inv(kind, s) ==> forall f :: f in s.files && f !in DeleteHistory(s, gc, unlinked, p).files ==> f !in LoadList(s.listing)
  {
    hide Inv, CrashSafe, LoadList;
    if Inv(kind, s) {
      DeleteKeeps(kind, s, gc, unlinked, p);
      forall f | f in s.manifest.listing.history ensures f !in LoadList(s.listing) {
        HistoryIsNotLoaded(kind, s, f);
      }
    }
  }

  lemma DeleteStatesAre(s: State, gc: bool, unlinked: set<FileName>, p: Persist)
    ensures var h := s.manifest.listing.history;
      DeleteStates(s, gc, unlinked, p) ==
        if !gc || h == [] then [s] else [s] + Unlinkings(s, h, unlinked) + [DeleteHistory(s, gc, unlinked, p)]
  {
    var h := s.manifest.listing.history;
    assert h[..0] == [];
    assert s.files - (set f | f in h[..0] && f in unlinked) == s.files;
  }

  /** The states after each unlink of a list of files. */
  ghost function Unlinkings(s: State, h: seq<FileName>, unlinked: set<FileName>): seq<State> {
    seq(|h|, i requires 0 <= i < |h| => s.(files := s.files - (set f | f in h[..i + 1] && f in unlinked)))
  }
}
