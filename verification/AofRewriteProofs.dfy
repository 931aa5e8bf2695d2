/** Safety of the append-only files over all runs, with failures, short writes and crashes. */
module AofRewriteProofs {
  import opened Text
  import opened Seqs
  import opened AofFormat
  import AofLoad
  import AofLoadProofs
  import AofFlush
  import AofResume
  import opened AofStream
  import opened AofFeed
  import opened AofRewrite

  // ---------------------------------------------------------------- reading files

  lemma {:induction false} ReadConcat(kind: Kinds, files: Files, a: seq<FileName>, b: seq<FileName>)
    ensures ReadAll(kind, files, a + b) == Plus(ReadAll(kind, files, a), ReadAll(kind, files, b))
  {
    hide Read;
    if a == [] {
      assert a + b == b;
      if ReadAll(kind, files, b).Some? { assert [] + ReadAll(kind, files, b).value == ReadAll(kind, files, b).value; }
    } else {
      assert (a + b)[0] == a[0] && (a + b)[1..] == a[1..] + b;
      ReadConcat(kind, files, a[1..], b);
      if a[0] in files { PlusAssociates(Read(kind, files[a[0]]), ReadAll(kind, files, a[1..]), ReadAll(kind, files, b)); }
    }
  }

  lemma PlusAssociates(a: Option<seq<Effect>>, b: Option<seq<Effect>>, c: Option<seq<Effect>>)
    ensures Plus(a, Plus(b, c)) == Plus(Plus(a, b), c)
  {
    if a.Some? && b.Some? && c.Some? { assert a.value + (b.value + c.value) == a.value + b.value + c.value; }
  }

  /** Files outside the list do not matter. */
  lemma {:induction false} ReadSame(kind: Kinds, f: Files, g: Files, names: seq<FileName>)
    requires forall i :: 0 <= i < |names| && names[i] in f ==> names[i] in g && g[names[i]] == f[names[i]]
    requires ReadAll(kind, f, names).Some?
    ensures ReadAll(kind, g, names) == ReadAll(kind, f, names)
  {
    hide Read;
    if names != [] {
      ReadSame(kind, f, g, names[1..]);
    }
  }

  lemma ReadOne(kind: Kinds, files: Files, name: FileName)
    requires name in files
    ensures ReadAll(kind, files, [name]) == Read(kind, files[name])
  {
    hide Read;
    assert [name][1..] == [];
    var r := Read(kind, files[name]);
    if r.Some? { assert r.value + [] == r.value; }
  }

  // ---------------------------------------------------------------- the invariant

  /** The INCR files carry increasing sequence numbers, and every history file is older
      than the files of its kind that are still loaded. */
  ghost predicate Ordered(l: Listing) {
    && l.base.Some? && l.base.value.Base?
    && l.incr != []
    && (forall i :: 0 <= i < |l.incr| ==> l.incr[i].Incr?)
    && (forall i, j :: 0 <= i < j < |l.incr| ==> l.incr[i].seqno < l.incr[j].seqno)
    && (forall f :: f in l.history ==>
          f.seqno < if f.Base? then l.base.value.seqno else l.incr[0].seqno)
  }

  function Last(l: Listing): FileName
    requires l.incr != []
  {
    l.incr[|l.incr| - 1]
  }

  /** All files to load but the last. */
  function Settled(l: Listing): seq<FileName>
    requires l.incr != []
  {
    (if l.base.Some? then [l.base.value] else []) + l.incr[..|l.incr| - 1]
  }

  /** The open file holds the first bytes of the good stream that is fed to it. */
  ghost predicate Stream(kind: Kinds, s: State) {
    && Good(kind, s.fed)
    && s.fd in s.files && s.files[s.fd].Log?
    && |Content(s)| <= |Print(s.fed)| && Content(s) == Print(s.fed)[..|Content(s)|]
  }

  /** A crash here loses the pending commands and nothing else: the last file on disk is the open
      one, or an empty one behind it. */
  ghost predicate CrashSafe(kind: Kinds, s: State) {
    && Ordered(s.listing) && Stream(kind, s)
    && Last(s.listing) in s.files
    && ReadAll(kind, s.files, Settled(s.listing)).Some?
    && var x := ReadAll(kind, s.files, Settled(s.listing)).value;
       if Last(s.listing) == s.fd then s.executed == x + All(kind, s.fed)
       else s.files[Last(s.listing)] == Log("") && s.executed == x + Pending(kind, s.fed, |Content(s)|)
  }

  /** The manifest in memory: the settled files and the stream of the open one are the dataset. */
  ghost predicate InMemory(kind: Kinds, s: State) {
    && Ordered(s.manifest.listing)
    && s.fd == Last(s.manifest.listing)
    && s.manifest.incrSeq == s.fd.seqno && s.manifest.baseSeq == s.manifest.listing.base.value.seqno
    && ReadAll(kind, s.files, Settled(s.manifest.listing)).Some?
    && s.executed == ReadAll(kind, s.files, Settled(s.manifest.listing)).value + All(kind, s.fed)
  }

  ghost predicate Same(s: State) {
    s.listing.base == s.manifest.listing.base && s.listing.incr == s.manifest.listing.incr
  }

  /** The next INCR file, left behind by an attempt whose manifest was written but not synced. */
  ghost predicate Stray(kind: Kinds, s: State) {
    var name := Incr(s.manifest.incrSeq + 1);
    && s.listing.base == s.manifest.listing.base
    && s.listing.incr == s.manifest.listing.incr + [name]
    && name in s.files && s.files[name] == Log("")
    && Settles(kind, s.fed, |Content(s)|)
  }

  /** The manifest with the next BASE file, written but not synced. */
  ghost predicate Ahead(kind: Kinds, s: State) {
    && s.listing.base.Some? && s.listing.base.value.Base? && s.listing.base.value.seqno == s.manifest.baseSeq + 1
    && s.listing.incr == [s.fd]
    && s.manifest.listing.incr != []
    && s.listing.base.value in s.files
    && Read(kind, s.files[s.listing.base.value]) == ReadAll(kind, s.files, Settled(s.manifest.listing))
  }

  /** Memory and disk agree, or differ by a manifest that was written but not synced. */
  ghost predicate Listed(kind: Kinds, s: State) {
    Same(s) || Stray(kind, s) || Ahead(kind, s)
  }

  ghost predicate Core(kind: Kinds, s: State) {
    Stream(kind, s) && InMemory(kind, s) && Ordered(s.listing) && Listed(kind, s)
  }

  /** File and buffer are the stream, and the offset is not before the end of the file. */
  ghost predicate Buffered(s: State) {
    Content(s) + s.buf == Print(s.fed) && s.size == |Content(s)| <= s.pos
  }

  /** The replaying client ends in the database that was selected last. */
  ghost predicate Selecting(kind: Kinds, s: State) {
    InStep(s.selected, Db(kind, s.fed))
  }

  /** The child was forked with what the settled files hold, and with the late records. */
  ghost predicate Forking(kind: Kinds, s: State) {
    s.child.Some? && s.manifest.listing.incr != [] ==>
      && Same(s)
      && ReadAll(kind, s.files, Settled(s.manifest.listing)).Some?
      && s.child.value.snapshot == ReadAll(kind, s.files, Settled(s.manifest.listing)).value + All(kind, s.child.value.late)
  }

  ghost predicate Inv(kind: Kinds, s: State) {
    Core(kind, s) && Buffered(s) && Selecting(kind, s) && Forking(kind, s)
  }

  lemma InvParts(kind: Kinds, s: State)
    requires Inv(kind, s)
    ensures Core(kind, s) && Buffered(s) && Selecting(kind, s) && Forking(kind, s) && Stream(kind, s) && InMemory(kind, s) && Listed(kind, s)
    ensures Ordered(s.listing) && s.listing.incr != [] && s.listing.base.Some?
    ensures Ordered(s.manifest.listing) && s.manifest.listing.incr != [] && s.fd == Last(s.manifest.listing)
  {
    hide Stream, Buffered, Forking, Listed, ReadAll, All, Db, Settled, Db;
  }

  /** The file being written is not among the settled ones. */
  lemma OpenFileIsLast(l: Listing)
    requires Ordered(l)
    ensures forall i :: 0 <= i < |Settled(l)| ==> Settled(l)[i] != Last(l)
    ensures LoadList(l) == Settled(l) + [Last(l)]
  {
  }

  // ---------------------------------------------------------------- what a crash leaves

  lemma ReadOfStream(kind: Kinds, s: State)
    requires Stream(kind, s)
    ensures ReadLast(kind, s.files[s.fd]) == Some(Kept(kind, s.fed, |Content(s)|))
    ensures Read(kind, s.files[s.fd]) ==
      if Settles(kind, s.fed, |Content(s)|) then Some(Kept(kind, s.fed, |Content(s)|)) else None
  {
    hide Print, AofLoad.Load, Kept, Settles;
    LoadOfStream(kind, s.fed, |Content(s)|);
  }

  lemma LoadSplit(kind: Kinds, files: Files, names: seq<FileName>, last: FileName)
    requires last in files
    ensures LoadFiles(kind, files, names + [last]) == Plus(ReadAll(kind, files, names), ReadLast(kind, files[last]))
  {
    hide ReadAll, ReadLast;
    assert (names + [last])[..|names|] == names;
  }

  lemma SafeIsExact(kind: Kinds, s: State)
    requires CrashSafe(kind, s)
    ensures Exact(kind, s)
  {
    var l, c := s.listing, |Content(s)|;
    OpenFileIsLast(l);
    assert l.incr != [];
    hide Print, Kept, Pending, All, Db, Good, Ordered, ReadAll, ReadLast, Settled, LoadList, LoadFiles;
    var x := ReadAll(kind, s.files, Settled(l)).value;
    LoadSplit(kind, s.files, Settled(l), Last(l));
    if Last(l) == s.fd {
      ReadOfStream(kind, s);
      StreamSplits(kind, s.fed, c);
      Associates(x, Kept(kind, s.fed, c), Pending(kind, s.fed, c));
    } else {
      EmptyFile(kind);
      PlusNothing(x);
    }
  }

  lemma StreamSplits(kind: Kinds, rs: seq<Record>, c: nat)
    requires Good(kind, rs)
    ensures All(kind, rs) == Kept(kind, rs, c) + Pending(kind, rs, c)
  {
    KeptAndPending(kind, rs, c);
  }

  lemma EmptyFile(kind: Kinds)
    ensures ReadLast(kind, Log("")) == Some([]) && Read(kind, Log("")) == Some([])
  {
  }

  lemma CoreIsSafe(kind: Kinds, s: State)
    requires Core(kind, s)
    ensures CrashSafe(kind, s)
  {
    hide Print, Kept, Pending, All, Db, Good, ReadAll, Read, Settles;
    var l, m, c := s.listing, s.manifest.listing, |Content(s)|;
    if Same(s) {
      assert Settled(l) == Settled(m) && Last(l) == Last(m);
    } else if Stray(kind, s) {
      OpenFileIsLast(m);
      assert Settled(l) == Settled(m) + [s.fd];
      ReadConcat(kind, s.files, Settled(m), [s.fd]);
      ReadOne(kind, s.files, s.fd);
      ReadOfStream(kind, s);
      StreamSplits(kind, s.fed, c);
      Associates(ReadAll(kind, s.files, Settled(m)).value, Kept(kind, s.fed, c), Pending(kind, s.fed, c));
      assert Last(l) == Incr(s.manifest.incrSeq + 1);
    } else {
      assert Settled(l) == [l.base.value] && Last(l) == s.fd;
      ReadOne(kind, s.files, l.base.value);
    }
  }

  /** A file behind the open one on disk makes the load depend on where the open one ends: a
      command cut in two, or an open MULTI, is fatal. */
  lemma LoadableIffSettles(kind: Kinds, s: State)
    requires Stream(kind, s) && InMemory(kind, s) && s.listing.base == s.manifest.listing.base
    requires var name := Incr(s.manifest.incrSeq + 1);
      s.listing.incr == s.manifest.listing.incr + [name] && name in s.files && s.files[name] == Log("")
    ensures Recovered(kind, s).Some? <==> Settles(kind, s.fed, |Content(s)|)
  {
    hide Print, Kept, Pending, All, Db, Good, ReadAll, Read, ReadLast, Settles;
    var l, m := s.listing, s.manifest.listing;
    var name := Incr(s.manifest.incrSeq + 1);
    OpenFileIsLast(m);
    assert LoadList(l) == (Settled(m) + [s.fd]) + [name];
    assert LoadList(l)[..|LoadList(l)| - 1] == Settled(m) + [s.fd];
    ReadConcat(kind, s.files, Settled(m), [s.fd]);
    ReadOne(kind, s.files, s.fd);
    ReadOfStream(kind, s);
    EmptyFile(kind);
  }

  // ---------------------------------------------------------------- small steps

  lemma InitialInv(kind: Kinds, rdb: bool)
    ensures Inv(kind, Initial(rdb))
  {
    var s := Initial(rdb);
    EmptyStream(kind);
    assert Settled(s.listing) == [Base(1, rdb)];
    ReadOne(kind, s.files, Base(1, rdb));
  }

  lemma KillKeeps(kind: Kinds, s: State)
    requires Inv(kind, s)
    ensures Inv(kind, Kill(s))
  {
    hide Print, Kept, Pending, All, Db, Good, ReadAll, Read, Settles, Ordered;
  }

  /** What the relation between memory and disk depends on. */
  lemma ListedKeeps(kind: Kinds, s: State, s': State)
    requires Core(kind, s)
    requires s'.listing == s.listing && s'.manifest == s.manifest && s'.fd == s.fd
    requires s.manifest.listing.incr != [] && s.listing.incr != [] && s.listing.base.Some?
    requires ReadAll(kind, s'.files, Settled(s.manifest.listing)) == ReadAll(kind, s.files, Settled(s.manifest.listing))
    requires Last(s.listing) != s.fd ==> FileKept(s, s', Last(s.listing))
    requires FileKept(s, s', s.listing.base.value)
    requires Last(s.listing) != s.fd && Settles(kind, s.fed, |Content(s)|) ==> Settles(kind, s'.fed, |Content(s')|)
    ensures Listed(kind, s')
  {
    hide Print, ReadAll, Read, Settles, Settled, Stream, Ordered, Content, All, Db;
    if Stray(kind, s) {
      assert Last(s.listing) == Incr(s.manifest.incrSeq + 1);
    }
  }

  ghost predicate FileKept(s: State, s': State, f: FileName) {
    f in s.files ==> f in s'.files && s'.files[f] == s.files[f]
  }

  lemma ListedFiles(s: State)
    requires Ordered(s.listing) && Ordered(s.manifest.listing)
    ensures forall i :: 0 <= i < |Settled(s.manifest.listing)| ==> Settled(s.manifest.listing)[i] in LoadList(s.manifest.listing)
    ensures Last(s.manifest.listing) in LoadList(s.manifest.listing)
    ensures Last(s.listing) in LoadList(s.listing) && s.listing.base.value in LoadList(s.listing)
    ensures s.manifest.listing.incr != [] && s.listing.incr != [] && s.listing.base.Some?
  {
  }

  /** Changing files that neither manifest loads keeps everything. */
  lemma FilesKeep(kind: Kinds, s: State, files: Files)
    requires Inv(kind, s)
    requires forall f :: f in LoadList(s.listing) && f in s.files ==> f in files && files[f] == s.files[f]
    requires forall f :: f in LoadList(s.manifest.listing) && f in s.files ==> f in files && files[f] == s.files[f]
    ensures Inv(kind, s.(files := files))
  {
    hide Print, Kept, Pending, All, Db, Good, ReadAll, Read, Settles, Ordered, Settled, LoadList;
    ListedFiles(s);
    ReadSame(kind, s.files, files, Settled(s.manifest.listing));
    FilesKeep'(kind, s, files);
  }

  lemma FilesKeep'(kind: Kinds, s: State, files: Files)
    requires Inv(kind, s) && s.manifest.listing.incr != [] && s.listing.incr != [] && s.listing.base.Some?
    requires ReadAll(kind, files, Settled(s.manifest.listing)) == ReadAll(kind, s.files, Settled(s.manifest.listing))
    requires var s' := s.(files := files);
      FileKept(s, s', s.fd) && FileKept(s, s', Last(s.listing)) && FileKept(s, s', s.listing.base.value)
    ensures Inv(kind, s.(files := files))
  {
    hide Print, Kept, Pending, All, Db, Good, ReadAll, Read, Settles, Ordered, Settled, LoadList, Listed;
    var s' := s.(files := files);
    assert Content(s') == Content(s);
    ListedKeeps(kind, s, s');
  }

  lemma ExecFeeds(kind: Kinds, s: State, unit: seq<Call>)
    requires Stream(kind, s) && Buffered(s) && Selecting(kind, s) && GoodUnit(kind, unit)
    ensures var s' := Exec(s, unit);
      && Stream(kind, s') && Buffered(s') && Selecting(kind, s') && Content(s') == Content(s)
      && All(kind, s'.fed) == All(kind, s.fed) + Effects(unit)
      && Settles(kind, s'.fed, |Content(s)|) == Settles(kind, s.fed, |Content(s)|)
  {
    hide Print, Kept, All, Db, Good, Settles, FeedRecords, Effects, SelectedAfter, Place, DbAfter, AofLoad.Effective, AofLoad.Commands, GoodUnit;
    var s', c, rs := Exec(s, unit), |Content(s)|, FeedRecords(s.selected, unit);
    UnitIsFed(kind, s.selected, unit, Db(kind, s.fed));
    Fed(kind, s.fed, rs, c);
    SettlesOfMore(kind, s.fed, rs, c);
    assert Content(s') == Content(s);
    PrefixOfLonger(Print(s.fed), Print(rs), c);
    Associates(Content(s), s.buf, Print(rs));
  }

  /** Feeding records to the buffer. */
  lemma ExecKeeps(kind: Kinds, s: State, unit: seq<Call>)
    requires Inv(kind, s) && GoodUnit(kind, unit)
    ensures Inv(kind, Exec(s, unit))
  {
    ListedFiles(s);
    hide Print, Pending, All, Db, Good, ReadAll, Read, Settles, Ordered, Settled, LoadList, Stream, Buffered, Content, Listed, Selecting,
      GoodUnit, FeedRecords, Effects, SelectedAfter;
    ExecFeeds(kind, s, unit);
    ListedKeeps(kind, s, Exec(s, unit));
    Associates(ReadAll(kind, s.files, Settled(s.manifest.listing)).value, All(kind, s.fed), Effects(unit));
  }

  // ---------------------------------------------------------------- writing to the open file

  /** Another prefix of the stream in the open file. */
  lemma TextStream(kind: Kinds, s: State, s': State, text: string)
    requires Stream(kind, s) && InMemory(kind, s)
    requires s' == s.(files := s.files[s.fd := Log(text)], pos := s'.pos, buf := s'.buf, size := s'.size)
    requires |text| <= |Print(s.fed)| && text == Print(s.fed)[..|text|]
    ensures Stream(kind, s') && InMemory(kind, s') && Content(s') == text
    ensures ReadAll(kind, s'.files, Settled(s.manifest.listing)) == ReadAll(kind, s.files, Settled(s.manifest.listing))
  {
    OpenFileIsLast(s.manifest.listing);
    hide Print, All, Db, Good, ReadAll, Ordered, Settled;
    ReadSame(kind, s.files, s'.files, Settled(s.manifest.listing));
  }

  /** Behind a file that is listed after it, the prefix must settle. */
  lemma TextKeeps(kind: Kinds, s: State, s': State, text: string)
    requires Core(kind, s)
    requires s' == s.(files := s.files[s.fd := Log(text)], pos := s'.pos, buf := s'.buf, size := s'.size)
    requires |text| <= |Print(s.fed)| && text == Print(s.fed)[..|text|]
    requires Last(s.listing) == s.fd || Settles(kind, s.fed, |text|)
    ensures Core(kind, s') && Content(s') == text
    ensures ReadAll(kind, s'.files, Settled(s.manifest.listing)) == ReadAll(kind, s.files, Settled(s.manifest.listing))
  {
    TextStream(kind, s, s', text);
    BaseIsNotIncr(s.manifest.listing);
    BaseIsNotIncr(s.listing);
    ListedFiles(s);
    assert s.listing.base.value != s.fd;
    hide Print, ReadAll, Settles, Ordered, Settled, LoadList, Listed, Stream, InMemory, Content;
    ListedKeeps(kind, s, s');
  }

  lemma BaseIsNotIncr(l: Listing)
    requires Ordered(l)
    ensures Last(l).Incr? && l.base.value.Base?
  {
  }

  /** What may be written: at the end of the file or nothing at all; and when the manifest on disk
      lists a file behind the open one, whole commands and transactions at every write(2). */
  predicate SoundFlush(kind: Kinds, s: State, o: FlushOutcome) {
    var marks := AofFlush.Marks(o.answers, 0, |s.buf|);
    && (AofFlush.AtEnd(OpenLog(s).file) || AofFlush.Total(o.answers, |s.buf|) == 0)
    && (s.listing.incr != [] && Last(s.listing) != s.fd ==>
          forall i :: 0 <= i < |marks| ==> Settles(kind, s.fed, |Content(s)| + marks[i]))
  }

  /** Writing at the end of the file leaves a longer prefix of the stream. */
  lemma WroteStream(kind: Kinds, s: State, k: nat)
    requires Stream(kind, s) && InMemory(kind, s) && Buffered(s) && k <= |s.buf|
    requires AofFlush.AtEnd(OpenLog(s).file) || k == 0
    ensures var s' := Wrote(s, k);
      && Stream(kind, s') && InMemory(kind, s')
      && |Content(s')| == |Content(s)| + k <= |Print(s.fed)| && Content(s') == Print(s.fed)[..|Content(s)| + k]
      && s' == s.(files := s.files[s.fd := Log(Content(s'))], pos := s'.pos)
  {
    hide Print, All, Db, Good, ReadAll, Ordered, Settled, AofFlush.WriteTo, AofFlush.AtEnd;
    AofFlush.Continues(OpenLog(s).file, s.buf, k, Print(s.fed));
    TextStream(kind, s, Wrote(s, k), AofFlush.WriteTo(OpenLog(s).file, s.buf[..k]).content);
  }

  lemma WroteSafe(kind: Kinds, s: State, k: nat)
    requires Inv(kind, s) && k <= |s.buf|
    requires AofFlush.AtEnd(OpenLog(s).file) || k == 0
    requires Last(s.listing) == s.fd || Settles(kind, s.fed, |Content(s)| + k)
    ensures CrashSafe(kind, Wrote(s, k))
  {
    hide *;
    InvParts(kind, s);
    WroteStream(kind, s, k);
    TextKeeps(kind, s, Wrote(s, k), Content(Wrote(s, k)));
    CoreIsSafe(kind, Wrote(s, k));
  }

  lemma ContentSettles(kind: Kinds, s: State)
    requires Core(kind, s)
    ensures Last(s.listing) == s.fd || Settles(kind, s.fed, |Content(s)|)
  {
    hide Settles, Print;
  }

  /** What a flush at the end of the file leaves. */
  lemma FlushIs(kind: Kinds, s: State, o: FlushOutcome)
    requires Stream(kind, s) && Buffered(s)
    requires AofFlush.AtEnd(OpenLog(s).file) || AofFlush.Total(o.answers, |s.buf|) == 0
    ensures var t, s' := AofFlush.Total(o.answers, |s.buf|), Flush(s, o);
      var text := Content(s');
      && s' == s.(files := s.files[s.fd := Log(text)], pos := s'.pos, buf := s'.buf, size := s'.size)
      && |text| <= |Print(s.fed)| && text == Print(s.fed)[..|text|] && Buffered(s')
      && (|text| == |Content(s)| || (t > 0 && |text| == |Content(s)| + t))
  {
    hide Print, Good, AofFlush.Total, AofFlush.Flush, AofFlush.AtEnd;
    FlushedText(OpenLog(s), AofFlush.Total(o.answers, |s.buf|), o.truncated);
  }

  lemma SoundFlushIs(kind: Kinds, s: State, o: FlushOutcome)
    requires SoundFlush(kind, s, o) && s.listing.incr != []
    ensures AofFlush.AtEnd(OpenLog(s).file) || AofFlush.Total(o.answers, |s.buf|) == 0
    ensures var t := AofFlush.Total(o.answers, |s.buf|);
      Last(s.listing) == s.fd || t == 0 || Settles(kind, s.fed, |Content(s)| + t)
  {
    hide Settles, AofFlush.AtEnd, AofFlush.Marks, AofFlush.Total, Content, OpenLog;
    AofFlush.MarksTotal(o.answers, 0, |s.buf|);
  }

  lemma FlushKeeps(kind: Kinds, s: State, o: FlushOutcome)
    requires Inv(kind, s) && SoundFlush(kind, s, o)
    ensures Inv(kind, Flush(s, o))
  {
    hide *;
    InvParts(kind, s);
    ContentSettles(kind, s);
    SoundFlushIs(kind, s, o);
    FlushIs(kind, s, o);
    var s' := Flush(s, o);
    TextKeeps(kind, s, s', Content(s'));
    ForkingKeeps(kind, s, s');
    SelectingSame(kind, s, s');
    InvOf(kind, s');
  }

  lemma SelectingSame(kind: Kinds, s: State, s': State)
    requires Selecting(kind, s) && s'.fed == s.fed && s'.selected == s.selected
    ensures Selecting(kind, s')
  {
    hide Db;
  }

  lemma NothingSelected(kind: Kinds, s: State)
    requires s.selected.None?
    ensures Selecting(kind, s)
  {
    hide Db;
  }

  lemma InvOf(kind: Kinds, s: State)
    requires Core(kind, s) && Buffered(s) && Selecting(kind, s) && Forking(kind, s)
    ensures Inv(kind, s)
  {
    hide Core, Buffered, Forking, Selecting;
  }

  lemma CoreOf(kind: Kinds, s: State)
    requires Stream(kind, s) && InMemory(kind, s) && Ordered(s.listing) && Listed(kind, s)
    ensures Core(kind, s)
  {
    hide Stream, InMemory, Ordered, Listed;
  }

  lemma ForkingKeeps(kind: Kinds, s: State, s': State)
    requires Forking(kind, s) && s.manifest.listing.incr != []
    requires s'.child == s.child && s'.manifest == s.manifest && s'.listing == s.listing
    requires ReadAll(kind, s'.files, Settled(s.manifest.listing)) == ReadAll(kind, s.files, Settled(s.manifest.listing))
    ensures Forking(kind, s')
  {
    hide ReadAll, Settled, All, Db;
  }

  /** A flush at the end of the file leaves file, buffer and size in step with the stream. */
  lemma FlushedText(l: AofFlush.Log, t: nat, truncated: bool)
    requires l.file.content + l.buf == l.fed && l.lastIncrSize == |l.file.content| <= l.file.pos && t <= |l.buf|
    requires AofFlush.AtEnd(l.file) || t == 0
    ensures var r := AofFlush.Flush(l, t, truncated);
      && r.file.content + r.buf == l.fed && r.lastIncrSize == |r.file.content| <= r.file.pos
      && r.file.content == l.fed[..|r.file.content|]
      && |r.file.content| == |l.file.content| + if 0 < t < |l.buf| && truncated then 0 else t
  {
    AofFlush.Continues(l.file, l.buf, t, l.fed);
    assert l.file.content == l.fed[..|l.file.content|];
    hide AofFlush.WriteTo, AofFlush.AtEnd;
    if t == |l.buf| {
      assert l.buf[t..] == [];
    } else if 0 < t && truncated {
      PrefixOfPrefix(l.fed, |l.file.content| + t, |l.file.content|);
    } else if t == 0 {
      assert l.buf[0..] == l.buf;
    }
  }

  lemma FlushStatesSafe(kind: Kinds, s: State, o: FlushOutcome)
    requires Inv(kind, s) && SoundFlush(kind, s, o)
    ensures forall i :: 0 <= i < |FlushStates(s, o)| ==> CrashSafe(kind, FlushStates(s, o)[i])
  {
    hide Print, CrashSafe, Wrote, Flush, Inv, SoundFlush, AofFlush.Marks, AofFlush.Total;
    FlushKeeps(kind, s, o);
    InvIsSafe(kind, Flush(s, o));
    forall i | 0 <= i < |AofFlush.Marks(o.answers, 0, |s.buf|)|
      ensures CrashSafe(kind, Wrote(s, AofFlush.Marks(o.answers, 0, |s.buf|)[i])) {
      MarkSafe(kind, s, o, i);
    }
  }

  lemma InvIsSafe(kind: Kinds, s: State)
    requires Inv(kind, s)
    ensures CrashSafe(kind, s)
  {
    hide Core, CrashSafe;
    CoreIsSafe(kind, s);
  }

  lemma MarkSafe(kind: Kinds, s: State, o: FlushOutcome, i: nat)
    requires Inv(kind, s) && SoundFlush(kind, s, o) && i < |AofFlush.Marks(o.answers, 0, |s.buf|)|
    ensures CrashSafe(kind, Wrote(s, AofFlush.Marks(o.answers, 0, |s.buf|)[i]))
  {
    hide *;
    InvParts(kind, s);
    SoundMark(kind, s, o, i);
    WroteSafe(kind, s, AofFlush.Marks(o.answers, 0, |s.buf|)[i]);
  }

  lemma SoundMark(kind: Kinds, s: State, o: FlushOutcome, i: nat)
    requires SoundFlush(kind, s, o) && s.listing.incr != [] && i < |AofFlush.Marks(o.answers, 0, |s.buf|)|
    ensures var k := AofFlush.Marks(o.answers, 0, |s.buf|)[i];
      && (AofFlush.AtEnd(OpenLog(s).file) || k == 0)
      && (Last(s.listing) == s.fd || Settles(kind, s.fed, |Content(s)| + k))
  {
    hide Settles, AofFlush.AtEnd, AofFlush.Marks, AofFlush.Total, Content, OpenLog;
    AofFlush.MarksTotal(o.answers, 0, |s.buf|);
  }

  // ---------------------------------------------------------------- starting a rewrite

  /** Creating (or emptying) the file after the open one changes nothing that is loaded. */
  lemma CreateKeeps(kind: Kinds, s: State)
    requires Inv(kind, s)
    ensures Inv(kind, s.(files := s.files[Incr(s.manifest.incrSeq + 1) := Log("")]))
  {
    hide Print, Kept, Pending, All, Db, Good, ReadAll, Read, Settles, Settled;
    var name, m := Incr(s.manifest.incrSeq + 1), s.manifest.listing;
    assert forall i :: 0 <= i < |m.incr| ==> m.incr[i].seqno <= s.manifest.incrSeq;
    assert forall i :: 0 <= i < |LoadList(m)| ==> LoadList(m)[i] != name;
    assert name in LoadList(s.listing) ==> Stray(kind, s);
    FilesKeep(kind, s, s.files[name := Log("")]);
  }

  lemma NewIncrOrdered(m: Manifest)
    requires Ordered(m.listing) && m.incrSeq == Last(m.listing).seqno
    ensures Ordered(WithNewIncr(m).listing)
    ensures Last(WithNewIncr(m).listing) == Incr(m.incrSeq + 1) && WithNewIncr(m).incrSeq == m.incrSeq + 1
    ensures WithNewIncr(m).baseSeq == m.baseSeq && WithNewIncr(m).listing.base == m.listing.base
    ensures WithNewIncr(m).listing.incr == m.listing.incr + [Incr(m.incrSeq + 1)]
    ensures Settled(WithNewIncr(m).listing) == Settled(m.listing) + [Last(m.listing)]
  {
    var l := WithNewIncr(m).listing;
    assert l.incr[..|l.incr| - 1] == m.listing.incr;
    assert forall i :: 0 <= i < |m.listing.incr| ==> l.incr[i] == m.listing.incr[i];
    assert forall i :: 0 <= i < |m.listing.incr| ==> m.listing.incr[i].seqno <= m.incrSeq;
  }

  /** The manifest on disk matters only to the relation between memory and disk. */
  lemma ListingOnly(kind: Kinds, s: State, l: Listing)
    requires Stream(kind, s) && InMemory(kind, s) && Buffered(s)
    ensures var s' := s.(listing := l); Stream(kind, s') && InMemory(kind, s') && Buffered(s') && Content(s') == Content(s)
  {
    hide Print, All, Db, Good, ReadAll, Settled, Ordered;
  }

  /** The manifest names the new, empty file, but the server goes on with the old one. */
  lemma StrayKeeps(kind: Kinds, s: State)
    requires Inv(kind, s) && s.child.None? && Settles(kind, s.fed, |Content(s)|)
    requires Incr(s.manifest.incrSeq + 1) in s.files && s.files[Incr(s.manifest.incrSeq + 1)] == Log("")
    ensures Inv(kind, s.(listing := WithNewIncr(s.manifest).listing))
  {
    NewIncrOrdered(s.manifest);
    ListingOnly(kind, s, WithNewIncr(s.manifest).listing);
    hide Stream, InMemory, Buffered, Content, Settles, Ordered, ReadAll, Settled, All, Db, Print;
    assert Stray(kind, s.(listing := WithNewIncr(s.manifest).listing));
  }

  /** The closed file and what was settled before it hold all but the new stream. */
  lemma SwitchedReads(kind: Kinds, s: State)
    requires Stream(kind, s) && InMemory(kind, s) && Closes(kind, s.fed, |Content(s)|) && Movable(kind, s.fed, |Content(s)|)
    ensures var m, rest := WithNewIncr(s.manifest), s.fed[AofLoadProofs.Whole(s.fed, |Content(s)|)..];
      var r := ReadAll(kind, s.files, Settled(m.listing));
      r.Some? && s.executed == r.value + All(kind, rest)
  {
    var m, c := WithNewIncr(s.manifest), |Content(s)|;
    var rest := s.fed[AofLoadProofs.Whole(s.fed, c)..];
    NewIncrOrdered(s.manifest);
    assert s.manifest.listing.incr != [];
    Split(kind, s.fed, c);
    hide Print, Kept, All, Db, Good, ReadAll, Read, Settles, Settled, Ordered, AofLoadProofs.Whole, WithNewIncr, Movable;
    ReadConcat(kind, s.files, Settled(s.manifest.listing), [s.fd]);
    ReadOne(kind, s.files, s.fd);
    ReadOfStream(kind, s);
    Associates(ReadAll(kind, s.files, Settled(s.manifest.listing)).value, Kept(kind, s.fed, c), All(kind, rest));
  }

  /** The new stream is what is left in the buffer. */
  lemma SwitchedStream(kind: Kinds, s: State, m: Manifest)
    requires Stream(kind, s) && Buffered(s) && Closes(kind, s.fed, |Content(s)|)
    requires Incr(m.incrSeq) in s.files && s.files[Incr(m.incrSeq)] == Log("")
    ensures var s' := Switched(s, m); Stream(kind, s') && Buffered(s') && Content(s') == ""
  {
    Split(kind, s.fed, |Content(s)|);
    hide Print, Good, Settles, AofLoadProofs.Whole;
    RestOf(Content(s), s.buf, Print(s.fed));
    assert Print(Switched(s, m).fed)[..0] == "";
  }

  /** The server goes on with the new file. */
  lemma SwitchedKeeps(kind: Kinds, s: State)
    requires Inv(kind, s) && s.child.None? && s.selected.None?
    requires Closes(kind, s.fed, |Content(s)|) && Movable(kind, s.fed, |Content(s)|)
    requires Incr(s.manifest.incrSeq + 1) in s.files && s.files[Incr(s.manifest.incrSeq + 1)] == Log("")
    ensures var s' := Switched(s.(listing := WithNewIncr(s.manifest).listing), WithNewIncr(s.manifest));
      Inv(kind, s') && Same(s') && Content(s') == ""
  {
    var m := WithNewIncr(s.manifest);
    NewIncrOrdered(s.manifest);
    SwitchedReads(kind, s);
    ListingOnly(kind, s, m.listing);
    SwitchedStream(kind, s.(listing := m.listing), m);
    SwitchedMemory(kind, s, m);
    hide Stream, Buffered, Settles, Switched, InMemory;
    assert Ordered(m.listing);
  }

  lemma SwitchedMemory(kind: Kinds, s: State, m: Manifest)
    requires Ordered(m.listing) && Last(m.listing) == Incr(m.incrSeq) && m.listing.base.value.seqno == m.baseSeq
    requires var r := ReadAll(kind, s.files, Settled(m.listing));
      r.Some? && s.executed == r.value + All(kind, s.fed[AofLoadProofs.Whole(s.fed, |Content(s)|)..])
    ensures var s' := Switched(s.(listing := m.listing), m);
      InMemory(kind, s') && Same(s') && s'.listing == m.listing && s'.child == s.child
  {
    hide All, Db, ReadAll, Settled, Ordered, AofLoadProofs.Whole;
    assert Content(s.(listing := m.listing)) == Content(s);
  }

  /** A child knows what the settled files hold and what is late. */
  lemma ForkKeeps(kind: Kinds, s: State, rdb: bool)
    requires Inv(kind, s) && Same(s) && Content(s) == ""
    ensures Inv(kind, Forked(s, rdb))
  {
    hide Print, Kept, Pending, All, Db, Good, ReadAll, Read, Settles, Settled, Ordered;
  }

  /** When a new INCR file may be listed: the open file ends with whole commands and transactions;
      and when the server goes on with the new file, with whole records, and what is still to be
      written does the same there. */
  predicate SoundOpen(kind: Kinds, s: State, created: bool, p: Persist) {
    && (created && p.FailedAfter? ==> Settles(kind, s.fed, |Content(s)|))
    && (created && p.Written? ==> Closes(kind, s.fed, |Content(s)|) && Movable(kind, s.fed, |Content(s)|))
  }

  predicate SoundStart(kind: Kinds, s: State, o: StartOutcome) {
    s.child.None? ==>
      SoundFlush(kind, Deselect(s), o.flush) && SoundOpen(kind, Flush(Deselect(s), o.flush), o.created, o.persist)
  }

  lemma OpenCases(s: State, p: Persist)
    ensures var m := WithNewIncr(s.manifest);
      var s2 := s.(files := s.files[Incr(m.incrSeq) := Log("")]);
      && OpenNewIncr(s, true, p) ==
           (if p.FailedBefore? then s2 else if p.FailedAfter? then s2.(listing := m.listing)
            else Switched(s2.(listing := m.listing), m))
      && PersistedListing(s.listing, m, p) == (if p.FailedBefore? then s.listing else m.listing)
      && m.incrSeq == s.manifest.incrSeq + 1
  {
  }

  lemma ContentBeside(s: State, name: FileName)
    requires s.fd != name
    ensures Content(s.(files := s.files[name := Log("")])) == Content(s)
  {
  }

  lemma SoundOpenIs(kind: Kinds, s: State, p: Persist)
    requires SoundOpen(kind, s, true, p)
    ensures !p.FailedBefore? ==> Settles(kind, s.fed, |Content(s)|)
    ensures p.Written? ==> Closes(kind, s.fed, |Content(s)|) && Movable(kind, s.fed, |Content(s)|)
  {
    hide Settles, Content, Movable;
  }

  /** Opening the new file after a flush. */
  lemma OpenKeeps(kind: Kinds, s: State, o: StartOutcome)
    requires Inv(kind, s) && s.child.None? && s.selected.None? && o.created
    requires SoundOpen(kind, s, true, o.persist)
    ensures var m := WithNewIncr(s.manifest);
      var s2 := s.(files := s.files[Incr(m.incrSeq) := Log("")]);
      && Inv(kind, s2) && Inv(kind, s2.(listing := PersistedListing(s.listing, m, o.persist)))
      && Inv(kind, OpenNewIncr(s, true, o.persist))
      && (o.persist.Written? ==> Inv(kind, Forked(OpenNewIncr(s, true, o.persist), o.rdb)))
  {
    hide *;
    var m := WithNewIncr(s.manifest);
    OpenCases(s, o.persist);
    CreateKeeps(kind, s);
    NewIsNotOpen(kind, s);
    var s2 := s.(files := s.files[Incr(m.incrSeq) := Log("")]);
    ContentBeside(s, Incr(m.incrSeq));
    SoundOpenIs(kind, s, o.persist);
    assert s2.(listing := s.listing) == s2;
    if !o.persist.FailedBefore? {
      StrayKeeps(kind, s2);
    }
    if o.persist.Written? {
      SwitchedKeeps(kind, s2);
      ForkKeeps(kind, OpenNewIncr(s, true, o.persist), o.rdb);
    }
  }

  lemma NewIsNotOpen(kind: Kinds, s: State)
    requires Inv(kind, s)
    ensures s.fd != Incr(s.manifest.incrSeq + 1)
  {
    hide Print, Kept, Pending, All, Db, Good, ReadAll, Read, Settles, Settled, Ordered;
  }

  lemma DeselectKeeps(kind: Kinds, s: State)
    requires Inv(kind, s)
    ensures Inv(kind, Deselect(s))
  {
    hide Print, Kept, Pending, All, Db, Good, ReadAll, Read, Settles, Settled, Ordered;
    assert Content(Deselect(s)) == Content(s);
  }

  /** Every state of a rewrite start is crash safe, and the end keeps the invariant. */
  lemma StartKeeps(kind: Kinds, s: State, o: StartOutcome)
    requires Inv(kind, s) && SoundStart(kind, s, o)
    ensures forall i :: 0 <= i < |StartStates(s, o)| ==> CrashSafe(kind, StartStates(s, o)[i])
    ensures Inv(kind, StartRewrite(s, o))
  {
    hide Inv, CrashSafe, Flush, FlushStates, OpenNewIncr, SoundOpen, SoundFlush, Forked, Content;
    if s.child.None? {
      var s0, s1 := Deselect(s), Flush(Deselect(s), o.flush);
      DeselectKeeps(kind, s);
      FlushKeeps(kind, s0, o.flush);
      FlushStatesSafe(kind, s0, o.flush);
      InvIsSafe(kind, s1);
      FlushIsLocal(s0, o.flush);
      if o.created {
        assert SoundOpen(kind, s1, true, o.persist);
        OpenKeeps(kind, s1, o);
        var m := WithNewIncr(s1.manifest);
        var s2 := s1.(files := s1.files[Incr(m.incrSeq) := Log("")]);
        InvIsSafe(kind, s2);
        InvIsSafe(kind, s2.(listing := PersistedListing(s1.listing, m, o.persist)));
      } else {
        assert OpenNewIncr(s1, false, o.persist) == s1 by { NotOpened(s1, o.persist); }
      }
      InvIsSafe(kind, StartRewrite(s, o));
    } else {
      InvIsSafe(kind, s);
    }
  }

  lemma FlushIsLocal(s: State, o: FlushOutcome)
    ensures var s1 := Flush(s, o);
      && s1.manifest == s.manifest && s1.listing == s.listing && s1.child == s.child
      && s1.fd == s.fd && s1.fed == s.fed && s1.executed == s.executed && s1.selected == s.selected
  {
  }

  lemma NotOpened(s: State, p: Persist)
    ensures OpenNewIncr(s, false, p) == s
  {
  }

  // ---------------------------------------------------------------- deleting history

  /** No file waiting to be deleted is one the on-disk manifest loads. */
  lemma HistoryIsNotLoaded(kind: Kinds, s: State, f: FileName)
    requires Inv(kind, s) && f in s.manifest.listing.history
    ensures f !in LoadList(s.listing) && f !in LoadList(s.manifest.listing)
  {
    hide Print, All, Db, Good, ReadAll, Read, Settles, Settled, Stream, Buffered;
    var l := s.manifest.listing;
    assert forall i :: 0 <= i < |l.incr| ==> l.incr[0].seqno <= l.incr[i].seqno;
    assert forall i :: 0 <= i < |l.incr| ==> l.incr[i] != f;
    assert f.Incr? ==> f.seqno < Last(l).seqno;
  }

  lemma UnlinkKeeps(kind: Kinds, s: State, gone: set<FileName>)
    requires Inv(kind, s) && forall f :: f in gone ==> f in s.manifest.listing.history
    ensures Inv(kind, s.(files := s.files - gone))
  {
    hide Inv, LoadList;
    forall f | f in gone ensures f !in LoadList(s.listing) && f !in LoadList(s.manifest.listing) {
      HistoryIsNotLoaded(kind, s, f);
    }
    FilesKeep(kind, s, s.files - gone);
  }

  lemma StreamSame(kind: Kinds, s: State, s': State)
    requires Stream(kind, s) && Buffered(s)
    requires s'.files == s.files && s'.fd == s.fd && s'.fed == s.fed && s'.buf == s.buf && s'.size == s.size && s'.pos == s.pos
    ensures Stream(kind, s') && Buffered(s') && Content(s') == Content(s)
  {
    hide Print, Good;
  }

  lemma MemorySame(kind: Kinds, s: State, s': State)
    requires InMemory(kind, s) && Ordered(s'.manifest.listing)
    requires s'.files == s.files && s'.fd == s.fd && s'.fed == s.fed && s'.executed == s.executed
    requires Settled(s'.manifest.listing) == Settled(s.manifest.listing) && Last(s'.manifest.listing) == Last(s.manifest.listing)
    requires s'.manifest.listing.base == s.manifest.listing.base
    requires s'.manifest.incrSeq == s.manifest.incrSeq && s'.manifest.baseSeq == s.manifest.baseSeq
    ensures InMemory(kind, s')
  {
    hide ReadAll, Settled, All, Db;
  }

  lemma Forgotten(l: Listing)
    requires Ordered(l)
    ensures var l' := l.(history := []); Ordered(l') && Settled(l') == Settled(l) && Last(l') == Last(l)
  {
  }

  /** A manifest without history, on disk or only in memory. */
  lemma ForgetKeeps(kind: Kinds, s: State, p: Persist)
    requires Inv(kind, s)
    ensures var m := s.manifest.(listing := s.manifest.listing.(history := []), dirty := true);
      Inv(kind, s.(listing := PersistedListing(s.listing, m, p), manifest := m.(dirty := !PersistOk(m, p))))
  {
    hide *;
    var m := s.manifest.(listing := s.manifest.listing.(history := []), dirty := true);
    var s' := s.(listing := PersistedListing(s.listing, m, p), manifest := m.(dirty := !PersistOk(m, p)));
    InvParts(kind, s);
    Forgotten(s.manifest.listing);
    StreamSame(kind, s, s');
    MemorySame(kind, s, s');
    ForgetListed(kind, s, s', m, p);
    SelectingSame(kind, s, s');
    CoreOf(kind, s');
    InvOf(kind, s');
  }

  lemma ForgetListed(kind: Kinds, s: State, s': State, m: Manifest, p: Persist)
    requires Ordered(s.listing) && Ordered(m.listing) && Listed(kind, s) && Forking(kind, s) && Content(s') == Content(s)
    requires m == s.manifest.(listing := s.manifest.listing.(history := []), dirty := true)
    requires s' == s.(listing := PersistedListing(s.listing, m, p), manifest := m.(dirty := !PersistOk(m, p)))
    requires s.manifest.listing.incr != [] && Settled(m.listing) == Settled(s.manifest.listing)
    ensures Ordered(s'.listing) && Listed(kind, s') && Forking(kind, s')
  {
    hide ReadAll, Read, Settled, Settles, All, Db, Ordered, Content;
  }

  lemma DeleteKeeps(kind: Kinds, s: State, gc: bool, unlinked: set<FileName>, p: Persist)
    requires Inv(kind, s)
    ensures Inv(kind, DeleteHistory(s, gc, unlinked, p))
    ensures forall i :: 0 <= i < |DeleteStates(s, gc, unlinked, p)| ==> CrashSafe(kind, DeleteStates(s, gc, unlinked, p)[i])
  {
    hide Inv, CrashSafe, PersistedListing, PersistOk;
    InvIsSafe(kind, s);
    var history := s.manifest.listing.history;
    if gc && history != [] {
      UnlinkKeeps(kind, s, set f | f in history && f in unlinked);
      ForgetKeeps(kind, s.(files := s.files - (set f | f in history && f in unlinked)), p);
      forall j | 0 <= j <= |history|
        ensures CrashSafe(kind, s.(files := s.files - (set f | f in history[..j] && f in unlinked))) {
        UnlinkKeeps(kind, s, set f | f in history[..j] && f in unlinked);
        InvIsSafe(kind, s.(files := s.files - (set f | f in history[..j] && f in unlinked)));
      }
      InvIsSafe(kind, DeleteHistory(s, gc, unlinked, p));
    }
  }

  // ---------------------------------------------------------------- the child is done

  function DoneManifest(m: Manifest, rdb: bool): Manifest {
    RewrittenAsHistory(WithNewBase(m, rdb))
  }

  lemma DoneManifestShape(m: Manifest, rdb: bool)
    requires Ordered(m.listing) && m.baseSeq == m.listing.base.value.seqno
    ensures var m' := DoneManifest(m, rdb);
      && m'.dirty && m'.baseSeq == m.baseSeq + 1 && m'.incrSeq == m.incrSeq
      && m'.listing.base == Some(Base(m.baseSeq + 1, rdb))
      && m'.listing.incr == [Last(m.listing)]
      && m'.listing.history == m.listing.incr[..|m.listing.incr| - 1] + [m.listing.base.value] + m.listing.history
      && Ordered(m'.listing)
  {
    var m', l := DoneManifest(m, rdb), m.listing;
    var n := |l.incr| - 1;
    assert l.incr[n..] == [l.incr[n]];
    assert m'.listing.history == l.incr[..n] + [l.base.value] + l.history;
    forall f | f in m'.listing.history
      ensures f.seqno < if f.Base? then m.baseSeq + 1 else l.incr[n].seqno
    {
      if f in l.incr[..n] {
        var i :| 0 <= i < n && l.incr[i] == f;
      } else if f in l.history {
        assert f.Incr? ==> f.seqno < l.incr[0].seqno <= l.incr[n].seqno;
      }
    }
  }

  /** The renamed BASE file is not loaded before the manifest names it. */
  lemma RenameKeeps(kind: Kinds, s: State, rdb: bool, files: Files)
    requires Inv(kind, s) && Same(s)
    requires var name := Base(s.manifest.baseSeq + 1, rdb); forall f :: f in s.files && f != name ==> f in files && files[f] == s.files[f]
    ensures Inv(kind, s.(files := files))
  {
    hide Print, All, Db, Good, ReadAll, Read, Settles, Settled, Stream, Buffered;
    var name := Base(s.manifest.baseSeq + 1, rdb);
    assert LoadList(s.listing) == LoadList(s.manifest.listing);
    assert forall i :: 0 <= i < |LoadList(s.listing)| ==> LoadList(s.listing)[i] != name;
    FilesKeep(kind, s, files);
  }

  /** Naming the new BASE file: it stands for everything the settled files held, if nothing was late. */
  lemma SwitchKeeps(kind: Kinds, s: State, c: Child)
    requires Inv(kind, s) && s.child == Some(c) && All(kind, c.late) == []
    requires var name := Base(s.manifest.baseSeq + 1, c.rdb); name in s.files && s.files[name] == Dataset(c.snapshot)
    ensures var m := DoneManifest(s.manifest, c.rdb);
      && Inv(kind, s.(child := None, listing := m.listing, manifest := m.(dirty := false)))
      && Inv(kind, s.(child := None, listing := m.listing))
  {
    var m, name := DoneManifest(s.manifest, c.rdb), Base(s.manifest.baseSeq + 1, c.rdb);
    DoneManifestShape(s.manifest, c.rdb);
    assert s.manifest.listing.incr != [];
    assert Settled(m.listing) == [name] && Last(m.listing) == s.fd;
    hide Print, All, Db, Good, ReadAll, Settles, Settled, Ordered, DoneManifest;
    PlusNothing(ReadAll(kind, s.files, Settled(s.manifest.listing)).value);
    ReadOne(kind, s.files, name);
    var ahead := s.(child := None, listing := m.listing);
    var s' := ahead.(manifest := m.(dirty := false));
    assert Content(s') == Content(s) && Content(ahead) == Content(s);
    assert Stream(kind, s') && Buffered(s') && InMemory(kind, s');
    assert Stream(kind, ahead) && Buffered(ahead) && InMemory(kind, ahead);
    hide Stream, Buffered, InMemory, Content;
    assert Same(s') && Ahead(kind, ahead);
  }

  /** What a finished rewrite may meet once its manifest is on disk: nothing was late, and the new
      BASE file is not removed again. */
  predicate SoundDone(kind: Kinds, s: State, o: DoneOutcome) {
    s.child.Some? && o.success && o.renamed && !o.persist.FailedBefore? ==>
      All(kind, s.child.value.late) == [] && !(o.persist.FailedAfter? && o.removed)
  }

  lemma DoneKeeps(kind: Kinds, s: State, o: DoneOutcome)
    requires Inv(kind, s) && SoundDone(kind, s, o)
    ensures Inv(kind, Done(s, o))
    ensures forall i :: 0 <= i < |DoneStates(s, o)| ==> CrashSafe(kind, DoneStates(s, o)[i])
  {
    hide Inv, CrashSafe, DeleteHistory, DeleteStates, RewrittenAsHistory, All, Db;
    KillKeeps(kind, s);
    InvIsSafe(kind, s.(child := None));
    if s.child.Some? && o.success && o.renamed {
      var c := s.child.value;
      var name, m := Base(s.manifest.baseSeq + 1, c.rdb), DoneManifest(s.manifest, c.rdb);
      DoneFacts(kind, s);
      var s1 := s.(files := s.files[name := Dataset(c.snapshot)]);
      RenameKeeps(kind, s, c.rdb, s1.files);
      KillKeeps(kind, s1);
      InvIsSafe(kind, s1.(child := None));
      if o.persist.FailedBefore? {
        RenameKeeps(kind, s.(child := None), c.rdb, s1.files - if o.removed then {name} else {});
        InvIsSafe(kind, Done(s, o));
      } else {
        SwitchKeeps(kind, s1, c);
        InvIsSafe(kind, s1.(child := None, listing := m.listing));
        if o.persist.Written? {
          DeleteKeeps(kind, s1.(child := None, listing := m.listing, manifest := m.(dirty := false)), o.gc, o.unlinked, o.cleaned);
        } else {
          assert s1.files - {} == s1.files;
        }
      }
    }
  }

  lemma DoneFacts(kind: Kinds, s: State)
    requires Inv(kind, s) && s.child.Some?
    ensures DoneManifest(s.manifest, s.child.value.rdb).dirty && Same(s)
  {
    DoneManifestShape(s.manifest, s.child.value.rdb);
  }

  // ---------------------------------------------------------------- crash and restart

  /** The server may go on appending to the file it has loaded: no transaction or annotation was
      cut in two where the load cannot take it back. */
  predicate Resumable(kind: Kinds, s: State) {
    s.listing.incr != [] && Last(s.listing) == s.fd ==> AofResume.SafeToAppend(kind, s.fed, |Content(s)|)
  }

  lemma RestartKeeps(kind: Kinds, s: State)
    requires CrashSafe(kind, s) && Resumable(kind, s)
    ensures s.listing.incr != [] && Recovered(kind, s).Some?
    ensures Inv(kind, Restart(kind, s))
    ensures s.executed == Restart(kind, s).executed + Pending(kind, s.fed, |Content(s)|)
  {
    hide *;
    SafeIsOrdered(kind, s);
    SafeIsExact(kind, s);
    ExactIs(kind, s);
    RestartStream(kind, s);
    RestartReads(kind, s);
    RestartMemory(kind, s);
    var s' := Restart(kind, s);
    NothingSelected(kind, s');
    CoreOf(kind, s');
    InvOf(kind, s');
  }

  lemma ExactIs(kind: Kinds, s: State)
    requires Exact(kind, s)
    ensures Recovered(kind, s).Some? && s.executed == Recovered(kind, s).value + Pending(kind, s.fed, |Content(s)|)
  {
    hide Recovered, Pending, Content;
  }

  /** Memory and disk agree after a restart. */
  lemma RestartMemory(kind: Kinds, s: State)
    requires Ordered(s.listing) && s.listing.incr != [] && Recovered(kind, s).Some?
    requires var s', r := Restart(kind, s), ReadAll(kind, s.files, Settled(s.listing));
      ReadAll(kind, s'.files, Settled(s.listing)) == r && r.Some? && s'.executed == r.value + All(kind, s'.fed)
    ensures var s' := Restart(kind, s);
      && InMemory(kind, s') && Listed(kind, s') && Forking(kind, s') && Ordered(s'.listing)
      && s'.executed == Recovered(kind, s).value && s'.selected.None?
  {
    hide ReadAll, Settled, All, Db, Recovered, AofLoad.Load, AofLoadProofs.Whole;
  }

  lemma SafeIsOrdered(kind: Kinds, s: State)
    requires CrashSafe(kind, s)
    ensures Ordered(s.listing) && s.listing.incr != []
  {
  }

  /** What is left in the last file is a good stream. */
  lemma RestartStream(kind: Kinds, s: State)
    requires CrashSafe(kind, s) && Resumable(kind, s) && Recovered(kind, s).Some?
    ensures s.listing.incr != []
    ensures var s' := Restart(kind, s);
      && Stream(kind, s') && Buffered(s')
      && All(kind, s'.fed) == if Last(s.listing) == s.fd then Kept(kind, s.fed, |Content(s)|) else []
  {
    var l := s.listing;
    EmptyStream(kind);
    assert AofLoad.Load(kind, "").file == "";
    if Last(l) == s.fd {
      Reopened(kind, s.fed, |Content(s)|);
    }
    hide Print, Kept, Pending, All, Db, ReadAll, Settled, Ordered, Recovered, AofLoad.Load, AofResume.SafeToAppend, AofLoadProofs.Whole;
    var s' := Restart(kind, s);
    PlusNothing(Content(s'));
    assert Content(s')[..|Content(s')|] == Content(s');
  }

  /** The settled files are as they were, and the dataset is what was loaded. */
  lemma RestartReads(kind: Kinds, s: State)
    requires CrashSafe(kind, s) && Recovered(kind, s).Some? && s.listing.incr != []
    requires All(kind, Restart(kind, s).fed) == if Last(s.listing) == s.fd then Kept(kind, s.fed, |Content(s)|) else []
    ensures var s', r := Restart(kind, s), ReadAll(kind, s.files, Settled(s.listing));
      && ReadAll(kind, s'.files, Settled(s.listing)) == r
      && r.Some? && s'.executed == r.value + All(kind, s'.fed)
  {
    var l, s' := s.listing, Restart(kind, s);
    OpenFileIsLast(l);
    hide Print, Kept, Pending, All, Db, Good, ReadAll, ReadLast, Settled, Ordered, LoadList, LoadFiles, AofLoad.Load, AofLoadProofs.Whole;
    ReadSame(kind, s.files, s'.files, Settled(l));
    LoadSplit(kind, s.files, Settled(l), Last(l));
    if Last(l) == s.fd {
      ReadOfStream(kind, s);
    } else {
      EmptyFile(kind);
    }
  }

  // ---------------------------------------------------------------- whole runs

  /** A step, or a crash of the process in one of the states it passes through, and the restart. */
  datatype Event = Take(step: Step) | CrashIn(step: Step, at: nat)

  /** What the protocol survives; module AofLimits shows that each of these conditions is needed. */
  ghost predicate Sound(kind: Kinds, s: State, e: Step) {
    match e
    case ExecStep(unit) => GoodUnit(kind, unit)
    case FlushStep(o) => SoundFlush(kind, s, o)
    case StartStep(o) => SoundStart(kind, s, o)
    case DoneStep(o) => SoundDone(kind, s, o)
    case _ => true
  }

  /** Every state a sound step passes through is crash safe, and its end keeps the invariant. */
  lemma StepIsSafe(kind: Kinds, s: State, e: Step)
    requires Inv(kind, s) && Sound(kind, s, e)
    ensures forall i :: 0 <= i < |States(s, e)| ==> CrashSafe(kind, States(s, e)[i])
    ensures Inv(kind, After(s, e))
  {
    hide Inv, CrashSafe, StartRewrite, StartStates, DeleteHistory, DeleteStates, Done, DoneStates, Flush, FlushStates, Exec,
      GoodUnit, SoundFlush, SoundStart, SoundDone;
    match e
    case ExecStep(unit) => ExecKeeps(kind, s, unit); InvIsSafe(kind, Exec(s, unit));
    case FlushStep(o) => FlushKeeps(kind, s, o); FlushStatesSafe(kind, s, o); LastFlushState(s, o);
    case StartStep(o) => StartKeeps(kind, s, o); LastStartState(s, o);
    case DoneStep(o) => DoneKeeps(kind, s, o); LastDoneState(s, o);
    case KillStep => KillKeeps(kind, s); InvIsSafe(kind, Kill(s));
    case CleanStep(gc, unlinked, p) => DeleteKeeps(kind, s, gc, unlinked, p); LastDeleteState(s, gc, unlinked, p);
  }

  lemma LastFlushState(s: State, o: FlushOutcome)
    ensures var r := FlushStates(s, o); r != [] && r[|r| - 1] == Flush(s, o)
  {
    hide Flush, Wrote;
  }

  lemma LastStartState(s: State, o: StartOutcome)
    ensures var r := StartStates(s, o); r != [] && r[|r| - 1] == StartRewrite(s, o)
  {
    hide Flush, FlushStates, OpenNewIncr;
  }

  lemma LastDeleteState(s: State, gc: bool, unlinked: set<FileName>, p: Persist)
    ensures var r := DeleteStates(s, gc, unlinked, p); r != [] && r[|r| - 1] == DeleteHistory(s, gc, unlinked, p)
  {
  }

  lemma LastDoneState(s: State, o: DoneOutcome)
    ensures var r := DoneStates(s, o); r != [] && r[|r| - 1] == Done(s, o)
  {
    hide DeleteHistory, DeleteStates, RewrittenAsHistory;
    if s.child.Some? && o.success && o.renamed {
      var m := DoneManifest(s.manifest, s.child.value.rdb);
      var s1 := s.(child := None, files := s.files[Base(s.manifest.baseSeq + 1, s.child.value.rdb) := Dataset(s.child.value.snapshot)]);
      var s2 := s1.(listing := PersistedListing(s.listing, m, o.persist));
      LastDeleteState(s2.(manifest := m.(dirty := false)), o.gc, o.unlinked, o.cleaned);
    }
  }

  ghost predicate SoundEvent(kind: Kinds, s: State, e: Event) {
    && Sound(kind, s, e.step)
    && (e.CrashIn? ==> e.at < |States(s, e.step)| && Resumable(kind, States(s, e.step)[e.at]))
  }

  /** A whole step, or a crash in one of the states it passes through and the restart from there;
      a server that cannot load its files does not start. */
  ghost function Outcome(kind: Kinds, s: State, e: Event): State
    requires SoundEvent(kind, s, e)
  {
    match e
    case Take(step) => After(s, step)
    case CrashIn(step, at) =>
      var x := States(s, step)[at];
      if Recovered(kind, x).Some? && x.listing.incr != [] then Restart(kind, x) else x
  }

  ghost predicate SoundRun(kind: Kinds, s: State, events: seq<Event>)
    decreases |events|
  {
    events == [] || (SoundEvent(kind, s, events[0]) && SoundRun(kind, Outcome(kind, s, events[0]), events[1..]))
  }

  /** The state after a run. */
  ghost function RunEnd(kind: Kinds, s: State, events: seq<Event>): State
    requires SoundRun(kind, s, events)
    decreases |events|
  {
    if events == [] then s else RunEnd(kind, Outcome(kind, s, events[0]), events[1..])
  }

  lemma {:induction false} RunKeepsInv(kind: Kinds, s: State, events: seq<Event>)
    requires Inv(kind, s) && SoundRun(kind, s, events)
    ensures Inv(kind, RunEnd(kind, s, events))
    decreases |events|
  {
    hide Inv, CrashSafe, After, States, Restart, Sound, Recovered, Resumable;
    if events != [] {
      var e := events[0];
      StepIsSafe(kind, s, e.step);
      if e.CrashIn? {
        RestartKeeps(kind, States(s, e.step)[e.at]);
      }
      RunKeepsInv(kind, Outcome(kind, s, e), events[1..]);
    }
  }

  /** Over every run, with system calls that fail or come short and with crashes between any two
      of them: the files named by the manifest on disk load and give every executed command but
      those not wholly written, and all of them once the buffer is empty. */
  lemma RunIsExact(kind: Kinds, rdb: bool, events: seq<Event>)
    requires SoundRun(kind, Initial(rdb), events)
    ensures var s := RunEnd(kind, Initial(rdb), events);
      Exact(kind, s) && (s.buf == "" ==> Recovered(kind, s) == Some(s.executed))
  {
    hide Inv, CrashSafe, Exact, Recovered;
    InitialInv(kind, rdb);
    RunKeepsInv(kind, Initial(rdb), events);
    var s := RunEnd(kind, Initial(rdb), events);
    InvIsSafe(kind, s);
    SafeIsExact(kind, s);
    FlushedIsRecovered(kind, s);
  }

  lemma FlushedIsRecovered(kind: Kinds, s: State)
    requires Inv(kind, s) && Exact(kind, s)
    ensures s.buf == "" ==> Recovered(kind, s) == Some(s.executed)
  {
    hide Print, All, Db, Good, ReadAll, Settles, Settled, Ordered, Recovered, Kept, Pending;
    if s.buf == "" {
      PlusNothing(Content(s));
      NothingPending(kind, s.fed);
      PlusNothing(Recovered(kind, s).value);
    }
  }
}
