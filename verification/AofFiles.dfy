/** Which files there are: what each step of a rewrite creates, names, forgets and deletes, and when a
    file is left on disk that nothing names any more. */
module AofFiles {
  import opened Text
  import opened AofFormat
  import AofFlush
  import opened AofStream
  import opened AofFeed
  import opened AofRewrite
  import opened AofRewriteProofs

  // ---------------------------------------------------------------- what the steps do

  /** Everything but the files, the manifests and the child. */
  ghost predicate SameLog(s: State, r: State) {
    && r.fd == s.fd && r.pos == s.pos && r.append == s.append && r.size == s.size && r.buf == s.buf
    && r.selected == s.selected && r.fed == s.fed && r.executed == s.executed
  }

  /** Files are neither created nor changed, and only those in `gone` are deleted. */
  ghost predicate OnlyDeleted(files: Files, files': Files, gone: set<FileName>) {
    && files'.Keys == files.Keys - gone
    && forall f :: f in files' ==> f in files && files'[f] == files[f]
  }

  /** aofDelHistoryFiles: unless it is switched off, the history is forgotten and deleted, but for files
      whose unlink fails; the files to load are the same in memory. */
  lemma DeleteDoes(s: State, gc: bool, unlinked: set<FileName>, p: Persist)
    ensures var r, h := DeleteHistory(s, gc, unlinked, p), s.manifest.listing.history;
      && SameLog(s, r) && r.child == s.child
      && OnlyDeleted(s.files, r.files, if gc then (set f | f in h && f in unlinked) else {})
      && r.manifest.listing == s.manifest.listing.(history := if gc then [] else h)
      && r.manifest.baseSeq == s.manifest.baseSeq && r.manifest.incrSeq == s.manifest.incrSeq
      && (!gc || h == [] ==> r == s)
      && (gc && h != [] ==> r.listing == if p.FailedBefore? then s.listing else r.manifest.listing)
      && (gc && h != [] ==> (r.manifest.dirty <==> !p.Written?))
  {
    var h := s.manifest.listing.history;
    if h == [] {
      assert (set f | f in h && f in unlinked) == {};
    }
  }

  /** The child is gone, however it ended. */
  lemma ChildIsGone(s: State, o: DoneOutcome)
    ensures Done(s, o).child.None? && Kill(s) == s.(child := None) && SameLog(s, Done(s, o))
    ensures s.child.Some? && !(o.success && o.renamed) ==> Done(s, o) == s.(child := None)
  {
  }

  /** A finished rewrite: the new BASE file holds the dataset the child was forked with.  Once the
      manifest is written it is loaded first, with the open INCR file behind it, and all other
      files are history; otherwise the manifest in memory is as before. */
  lemma DoneDoes(s: State, o: DoneOutcome)
    requires Ordered(s.manifest.listing) && s.manifest.baseSeq == s.manifest.listing.base.value.seqno
    requires s.child.Some? && o.success && o.renamed
    ensures var r, c, l := Done(s, o), s.child.value, s.manifest.listing;
      var name := Base(s.manifest.baseSeq + 1, c.rdb);
      var past := l.incr[..|l.incr| - 1] + [l.base.value] + l.history;
      var files := s.files[name := Dataset(c.snapshot)];
      if !o.persist.Written? then
        && r.manifest == s.manifest && OnlyDeleted(files, r.files, if o.removed then {name} else {})
        && r.listing == if o.persist.FailedBefore? then s.listing else Listing(Some(name), [Last(l)], past)
      else
        && r.manifest.listing == Listing(Some(name), [Last(l)], if o.gc then [] else past)
        && r.manifest.baseSeq == s.manifest.baseSeq + 1 && r.manifest.incrSeq == s.manifest.incrSeq
        && OnlyDeleted(files, r.files, if o.gc then (set f | f in past && f in o.unlinked) else {})
        && r.listing == (if o.gc && !o.cleaned.FailedBefore? then r.manifest.listing else Listing(Some(name), [Last(l)], past))
        && (r.manifest.dirty <==> o.gc && !o.cleaned.Written?)
  {
    hide Ordered, DeleteHistory;
    var c := s.child.value;
    DoneManifestShape(s.manifest, c.rdb);
    var m, name := DoneManifest(s.manifest, c.rdb), Base(s.manifest.baseSeq + 1, c.rdb);
    hide WithNewBase, RewrittenAsHistory;
    var s1 := s.(child := None, files := s.files[name := Dataset(c.snapshot)], listing := PersistedListing(s.listing, m, o.persist));
    assert m.listing.history != [];
    if PersistOk(m, o.persist) {
      DeleteDoes(s1.(manifest := m.(dirty := false)), o.gc, o.unlinked, o.cleaned);
    }
  }

  /** rewriteAppendOnlyFileBackground: nothing while a child runs; a child, forked with the dataset of
      that moment, if the new INCR file could be opened and listed and fork(2) worked. */
  lemma StartDoes(s: State, o: StartOutcome)
    ensures var r := StartRewrite(s, o);
      && r.executed == s.executed
      && (s.child.Some? ==> r == s)
      && (s.child.None? && o.created && o.persist.Written? && o.forked ==> r.child == Some(Child(s.executed, o.rdb, r.fed)))
      && (s.child.None? && !(o.created && o.persist.Written? && o.forked) ==> r.child.None?)
      && (s.child.None? ==> r.selected.None?)
  {
    hide AofFlush.Flush, Content;
  }

  // ---------------------------------------------------------------- files nothing names

  ghost predicate Named(l: Listing, f: FileName) {
    f in LoadList(l) || f in l.history
  }

  /** A file the next attempt at a rewrite will replace. */
  predicate Replaceable(m: Manifest, f: FileName) {
    f.seqno == 1 + if f.Base? then m.baseSeq else m.incrSeq
  }

  /** Every file on disk is named by the manifest, or will be replaced. */
  ghost predicate Tidy(s: State) {
    forall f :: f in s.files ==> Named(s.manifest.listing, f) || Replaceable(s.manifest, f)
  }

  /** No file of the list that is on disk stays there. */
  ghost predicate Unlinks(history: seq<FileName>, files: Files, unlinked: set<FileName>) {
    forall f :: f in history && f in files ==> f in unlinked
  }

  /** What keeps the disk tidy: no unlink of a file that is there fails, and a new BASE file does not pass
      one of the other format that an earlier attempt has left. */
  ghost predicate TidyStep(s: State, e: Step) {
    match e
    case DoneStep(o) =>
      s.child.Some? && o.success && o.renamed && o.persist.Written? ==>
        && Base(s.manifest.baseSeq + 1, !s.child.value.rdb) !in s.files
        && (o.gc ==> Unlinks(DoneManifest(s.manifest, s.child.value.rdb).listing.history, s.files, o.unlinked))
    case CleanStep(gc, unlinked, p) => gc ==> Unlinks(s.manifest.listing.history, s.files, unlinked)
    case _ => true
  }

  /** What the invariant says about the manifest in memory. */
  ghost predicate Counted(m: Manifest) {
    && Ordered(m.listing) && m.listing.incr != [] && m.listing.base.Some?
    && m.baseSeq == m.listing.base.value.seqno && m.incrSeq == Last(m.listing).seqno
  }

  /** Files of the history are not among those to load, nor will they be replaced. */
  lemma HistoryIsPast(m: Manifest, f: FileName)
    requires Counted(m) && f in m.listing.history
    ensures f !in LoadList(m.listing) && !Replaceable(m, f)
  {
    var l := m.listing;
    assert f.seqno < if f.Base? then l.base.value.seqno else l.incr[0].seqno;
    assert l.incr[0].seqno <= Last(l).seqno;
  }

  lemma DeleteTidyIff(s: State, gc: bool, unlinked: set<FileName>, p: Persist)
    requires Counted(s.manifest) && Tidy(s)
    ensures Tidy(DeleteHistory(s, gc, unlinked, p)) <==>
      (gc ==> Unlinks(s.manifest.listing.history, s.files, unlinked))
  {
    var r, h := DeleteHistory(s, gc, unlinked, p), s.manifest.listing.history;
    DeleteDoes(s, gc, unlinked, p);
    hide DeleteHistory, Counted;
    assert LoadList(r.manifest.listing) == LoadList(s.manifest.listing);
    hide LoadList;
    forall f | f in h ensures f !in LoadList(s.manifest.listing) && !Replaceable(s.manifest, f) {
      HistoryIsPast(s.manifest, f);
    }
    if gc && !Unlinks(h, s.files, unlinked) {
      var f :| f in h && f in s.files && f !in unlinked;
      assert f in r.files && !Named(r.manifest.listing, f) && !Replaceable(r.manifest, f);
    }
  }

  /** The manifest with the child's file as BASE is written. */
  ghost function Renamed(s: State): State
    requires s.child.Some?
  {
    var c := s.child.value;
    var m := DoneManifest(s.manifest, c.rdb);
    s.(child := None, files := s.files[Base(s.manifest.baseSeq + 1, c.rdb) := Dataset(c.snapshot)],
       listing := m.listing, manifest := m.(dirty := false))
  }

  /** A manifest with the new BASE file and the others as history names every file that was named. */
  lemma SwitchTidyIff(s: State)
    requires Counted(s.manifest) && Tidy(s) && s.child.Some?
    ensures Counted(Renamed(s).manifest)
    ensures Tidy(Renamed(s)) <==> Base(s.manifest.baseSeq + 1, !s.child.value.rdb) !in s.files
  {
    var r, rdb := Renamed(s), s.child.value.rdb;
    DoneManifestShape(s.manifest, rdb);
    hide DoneManifest;
    var m, l, l', other := s.manifest, s.manifest.listing, r.manifest.listing, Base(s.manifest.baseSeq + 1, !rdb);
    assert LoadList(l') == [Base(m.baseSeq + 1, rdb), Last(l)];
    forall f | Named(l, f) ensures Named(l', f) {
      NamedBefore(l, f);
    }
    assert !Named(l', other) && !Replaceable(r.manifest, other) by {
      if other in l'.history { HistoryIsPast(r.manifest, other); assert false; }
    }
    forall f | f in r.files && f != other ensures Named(l', f) || Replaceable(r.manifest, f) {
      if f != Base(m.baseSeq + 1, rdb) { assert Named(l, f) || Replaceable(m, f); }
    }
  }

  /** The files a manifest names. */
  lemma NamedBefore(l: Listing, f: FileName)
    requires l.base.Some? && l.incr != [] && Named(l, f)
    ensures f == Last(l) || f in l.incr[..|l.incr| - 1] + [l.base.value] + l.history
  {
    if f in LoadList(l) {
      var i :| 0 <= i < |LoadList(l)| && LoadList(l)[i] == f;
      if 0 < i < |l.incr| {
        assert l.incr[..|l.incr| - 1][i - 1] == f;
      }
    }
  }

  /** The deletion that ends a finished rewrite. */
  lemma DoneCleans(s: State, o: DoneOutcome)
    requires Counted(s.manifest) && s.child.Some? && o.success && o.renamed && o.persist.Written?
    ensures Done(s, o) == DeleteHistory(Renamed(s), o.gc, o.unlinked, o.cleaned)
  {
    DoneManifestShape(s.manifest, s.child.value.rdb);
    hide DeleteHistory;
  }

  /** Without a new manifest the new BASE file is one that will be replaced. */
  lemma FailedIsTidy(s: State, r: State, name: FileName)
    requires Tidy(s) && r.manifest == s.manifest && Replaceable(s.manifest, name)
    requires forall f :: f in r.files ==> f in s.files || f == name
    ensures Tidy(r)
  {
    hide Named, Replaceable;
  }

  lemma DoneTidyIff(s: State, o: DoneOutcome)
    requires Counted(s.manifest) && Tidy(s)
    ensures Tidy(Done(s, o)) <==> TidyStep(s, DoneStep(o))
    ensures Counted(Done(s, o).manifest) && Last(Done(s, o).manifest.listing) == Last(s.manifest.listing)
  {
    hide Tidy, DoneManifest, Ordered, Done, DeleteHistory, OnlyDeleted;
    ChildIsGone(s, o);
    if s.child.None? {
      DoneWithout(s, o);
    } else if o.success && o.renamed {
      DoneDoes(s, o);
      if o.persist.Written? {
        WrittenTidyIff(s, o);
      } else {
        FailedDone(s, o);
      }
    } else {
      TidyDepends(s, s.(child := None));
    }
  }

  lemma TidyDepends(s: State, r: State)
    requires r.manifest == s.manifest && r.files == s.files
    ensures Tidy(r) <==> Tidy(s)
  {
    hide Named, Replaceable;
  }

  lemma DoneWithout(s: State, o: DoneOutcome)
    requires s.child.None?
    ensures Done(s, o) == s
  {
  }

  lemma FailedDone(s: State, o: DoneOutcome)
    requires Counted(s.manifest) && Tidy(s) && s.child.Some? && o.success && o.renamed && !o.persist.Written?
    ensures Tidy(Done(s, o))
  {
    DoneDoes(s, o);
    hide Done, Tidy, Counted;
    FailedIsTidy(s, Done(s, o), Base(s.manifest.baseSeq + 1, s.child.value.rdb));
  }

  lemma WrittenTidyIff(s: State, o: DoneOutcome)
    requires Counted(s.manifest) && Tidy(s) && s.child.Some? && o.success && o.renamed && o.persist.Written?
    ensures Tidy(Done(s, o)) <==> TidyStep(s, DoneStep(o))
    ensures Counted(Done(s, o).manifest)
  {
    hide Done, DeleteHistory, DoneManifest, Counted, Tidy, Unlinks, Renamed;
    var r := Renamed(s);
    SwitchTidyIff(s);
    DoneCleans(s, o);
    DeleteCounted(r, o.gc, o.unlinked, o.cleaned);
    SameUnlinks(s, o.unlinked);
    if Tidy(r) {
      DeleteTidyIff(r, o.gc, o.unlinked, o.cleaned);
    } else {
      StaysUntidy(r, o.gc, o.unlinked, o.cleaned);
    }
  }

  lemma SameUnlinks(s: State, unlinked: set<FileName>)
    requires Counted(s.manifest) && s.child.Some?
    ensures var r, h := Renamed(s), DoneManifest(s.manifest, s.child.value.rdb).listing.history;
      Unlinks(r.manifest.listing.history, r.files, unlinked) <==> Unlinks(h, s.files, unlinked)
  {
    hide DoneManifest, Counted, Unlinks;
    var c := s.child.value;
    NewIsNoHistory(s, c.rdb);
    NewAside(DoneManifest(s.manifest, c.rdb).listing.history, s.files, Base(s.manifest.baseSeq + 1, c.rdb), Dataset(c.snapshot), unlinked);
  }

  lemma NewAside(history: seq<FileName>, files: Files, name: FileName, d: Data, unlinked: set<FileName>)
    requires name !in history
    ensures Unlinks(history, files[name := d], unlinked) <==> Unlinks(history, files, unlinked)
  {
    if Unlinks(history, files, unlinked) {
      assert forall f :: f in history && f in files[name := d] ==> f in files;
    } else {
      assert exists f :: f in history && f in files[name := d] && f !in unlinked;
    }
  }

  lemma NewIsNoHistory(s: State, rdb: bool)
    requires Counted(s.manifest)
    ensures var h := DoneManifest(s.manifest, rdb).listing.history;
      Base(s.manifest.baseSeq + 1, rdb) !in h
  {
    DoneManifestShape(s.manifest, rdb);
    hide DoneManifest;
  }

  lemma DeleteCounted(s: State, gc: bool, unlinked: set<FileName>, p: Persist)
    requires Counted(s.manifest)
    ensures Counted(DeleteHistory(s, gc, unlinked, p).manifest)
    ensures Last(DeleteHistory(s, gc, unlinked, p).manifest.listing) == Last(s.manifest.listing)
  {
  }

  /** A file that nothing names is not in the history, and stays. */
  lemma StaysUntidy(s: State, gc: bool, unlinked: set<FileName>, p: Persist)
    requires !Tidy(s)
    ensures !Tidy(DeleteHistory(s, gc, unlinked, p))
  {
    var r := DeleteHistory(s, gc, unlinked, p);
    DeleteDoes(s, gc, unlinked, p);
    hide DeleteHistory;
    var f :| f in s.files && !Named(s.manifest.listing, f) && !Replaceable(s.manifest, f);
    assert LoadList(r.manifest.listing) == LoadList(s.manifest.listing);
    assert f in r.files && !Named(r.manifest.listing, f);
  }

  // ---------------------------------------------------------------- all steps

  /** The manifest counts its files, and its last INCR file is the open one. */
  ghost predicate Numbered(s: State) {
    Counted(s.manifest) && s.fd == Last(s.manifest.listing)
  }

  lemma FlushTidy(s: State, o: FlushOutcome)
    requires Numbered(s) && Tidy(s)
    ensures Numbered(Flush(s, o)) && Tidy(Flush(s, o)) && Flush(s, o).manifest == s.manifest
  {
    hide AofFlush.Flush, AofFlush.Total;
    assert s.fd == s.manifest.listing.incr[|s.manifest.listing.incr| - 1];
    assert s.fd in LoadList(s.manifest.listing);
  }

  lemma NewIncrCounted(m: Manifest)
    requires Counted(m)
    ensures var m' := WithNewIncr(m);
      && Counted(m') && Last(m'.listing) == Incr(m.incrSeq + 1) && m'.baseSeq == m.baseSeq && m'.incrSeq == m.incrSeq + 1
      && (forall f :: Named(m.listing, f) ==> Named(m'.listing, f)) && Named(m'.listing, Incr(m.incrSeq + 1))
  {
    var l, l' := m.listing, WithNewIncr(m).listing;
    assert LoadList(l') == LoadList(l) + [Incr(m.incrSeq + 1)];
    assert l'.incr[..|l.incr|] == l.incr;
  }

  /** A new file that is named or will be replaced, and a manifest that names no less. */
  lemma GrownTidy(s: State, r: State, name: FileName)
    requires Tidy(s) && forall f :: f in r.files ==> f in s.files || f == name
    requires forall f :: Named(s.manifest.listing, f) ==> Named(r.manifest.listing, f)
    requires forall f :: Replaceable(s.manifest, f) ==> Named(r.manifest.listing, f) || Replaceable(r.manifest, f)
    requires Named(r.manifest.listing, name) || Replaceable(r.manifest, name)
    ensures Tidy(r)
  {
    hide Named, Replaceable;
  }

  lemma OpenTidy(s: State, created: bool, p: Persist)
    requires Numbered(s) && Tidy(s)
    ensures Numbered(OpenNewIncr(s, created, p)) && Tidy(OpenNewIncr(s, created, p))
  {
    hide WithNewIncr, Counted, Named, Content, Tidy;
    var r, m := OpenNewIncr(s, created, p), WithNewIncr(s.manifest);
    NewIncrCounted(s.manifest);
    assert r.manifest == (if OpenedNewIncr(s, created, p) then m.(dirty := false) else s.manifest);
    assert r.fd == (if OpenedNewIncr(s, created, p) then Incr(m.incrSeq) else s.fd);
    assert forall f :: f in r.files ==> f in s.files || f == Incr(s.manifest.incrSeq + 1);
    hide OpenNewIncr, OpenedNewIncr;
    CountedAlike(m);
    GrownTidy(s, r, Incr(s.manifest.incrSeq + 1));
  }

  lemma CountedAlike(m: Manifest)
    requires Counted(m)
    ensures Counted(m.(dirty := false))
  {
  }

  lemma StartTidy(s: State, o: StartOutcome)
    requires Numbered(s) && Tidy(s)
    ensures Numbered(StartRewrite(s, o)) && Tidy(StartRewrite(s, o))
  {
    hide Flush, OpenNewIncr, Tidy, Numbered;
    if s.child.None? {
      DeselectTidy(s);
      FlushTidy(Deselect(s), o.flush);
      var s1 := Flush(Deselect(s), o.flush);
      OpenTidy(s1, o.created, o.persist);
      ForkTidy(OpenNewIncr(s1, o.created, o.persist), o.rdb);
    }
  }

  lemma DeselectTidy(s: State)
    requires Numbered(s) && Tidy(s)
    ensures Numbered(Deselect(s)) && Tidy(Deselect(s))
  {
    TidyDepends(s, Deselect(s));
  }

  lemma ForkTidy(s: State, rdb: bool)
    requires Numbered(s) && Tidy(s)
    ensures Numbered(Forked(s, rdb)) && Tidy(Forked(s, rdb))
  {
    TidyDepends(s, Forked(s, rdb));
  }

  /** Every step keeps the disk tidy, whatever fails on the way, exactly when it does not leave behind a
      file that it takes from the manifest, or a BASE file of the other format. */
  lemma StepTidyIff(s: State, e: Step)
    requires Numbered(s) && Tidy(s)
    ensures Numbered(After(s, e))
    ensures Tidy(After(s, e)) <==> TidyStep(s, e)
  {
    hide Tidy, Flush, FlushStates, StartRewrite, StartStates, Done, DoneStates, DeleteHistory, DeleteStates, Counted, DoneManifest, FeedRecords;
    match e
    case ExecStep(unit) => TidyDepends(s, Exec(s, unit));
    case FlushStep(o) => FlushTidy(s, o); LastFlushState(s, o);
    case StartStep(o) => StartTidy(s, o); LastStartState(s, o);
    case DoneStep(o) => DoneTidyIff(s, o); LastDoneState(s, o); ChildIsGone(s, o);
    case KillStep => TidyDepends(s, Kill(s));
    case CleanStep(gc, unlinked, p) =>
      DeleteTidyIff(s, gc, unlinked, p); LastDeleteState(s, gc, unlinked, p); DeleteCounted(s, gc, unlinked, p);
      DeleteDoes(s, gc, unlinked, p);
  }

  /** The disk is tidy in the beginning and after every step. */
  ghost predicate TidyThroughout(s: State, steps: seq<Step>)
    decreases |steps|
  {
    Tidy(s) && (steps != [] ==> TidyThroughout(After(s, steps[0]), steps[1..]))
  }

  ghost predicate TidySteps(s: State, steps: seq<Step>)
    decreases |steps|
  {
    steps != [] ==> TidyStep(s, steps[0]) && TidySteps(After(s, steps[0]), steps[1..])
  }

  lemma {:induction false} RunTidyFromIff(s: State, steps: seq<Step>)
    requires Numbered(s) && Tidy(s)
    ensures TidyThroughout(s, steps) <==> TidySteps(s, steps)
    decreases |steps|
  {
    hide Tidy, Numbered, TidyStep, After;
    if steps != [] {
      var r := After(s, steps[0]);
      StepTidyIff(s, steps[0]);
      if Tidy(r) {
        RunTidyFromIff(r, steps[1..]);
      }
    }
  }

  /** From the first start on, over any steps: no file is ever left that nothing names and nothing will
      replace, if and only if every step is tidy. */
  lemma RunTidyIff(rdb: bool, steps: seq<Step>)
    ensures TidyThroughout(Initial(rdb), steps) <==> TidySteps(Initial(rdb), steps)
  {
    InitialTidy(rdb);
    RunTidyFromIff(Initial(rdb), steps);
  }

  lemma InitialTidy(rdb: bool)
    ensures Numbered(Initial(rdb)) && Tidy(Initial(rdb))
  {
    var l := Initial(rdb).manifest.listing;
    assert LoadList(l) == [Base(1, rdb), Incr(1)];
  }
}
