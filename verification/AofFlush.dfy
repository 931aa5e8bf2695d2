/** Writing the append-only buffer to the file (aofWrite and flushAppendOnlyFile): short
    writes, errors, and the repair with ftruncate. */
module AofFlush {
  import opened Text

  type Byte = char

  /** An open file: its contents, the offset of the descriptor, and O_APPEND. */
  datatype File = File(content: seq<Byte>, pos: nat, append: bool)

  function Zeros(n: nat): seq<Byte> {
    seq(n, _ => NUL)
  }

  /** write(2) taking all of data.  Without O_APPEND it starts at the offset, and an offset
      past the end leaves a hole of zero bytes. */
  function WriteTo(f: File, data: seq<Byte>): File {
    var at := if f.append then |f.content| else f.pos;
    var before := if at <= |f.content| then f.content[..at] else f.content + Zeros(at - |f.content|);
    var after := if at + |data| <= |f.content| then f.content[at + |data|..] else [];
    if data == [] then f else f.(content := before + data + after, pos := at + |data|)
  }

  /** ftruncate(2): the offset stays where it is. */
  function TruncateTo(f: File, size: nat): File {
    f.(content := if size <= |f.content| then f.content[..size] else f.content + Zeros(size - |f.content|))
  }

  lemma WriteTwice(f: File, a: seq<Byte>, b: seq<Byte>)
    ensures WriteTo(WriteTo(f, a), b) == WriteTo(f, a + b)
  {
    if a == [] {
      assert a + b == b;
    } else if b == [] {
      assert a + b == a;
    } else {
      assert WriteTo(WriteTo(f, a), b).content == WriteTo(f, a + b).content;
    }
  }

  lemma WriteMode(f: File, data: seq<Byte>)
    ensures WriteTo(f, data).append == f.append
  {
  }

  // ---------------------------------------------------------------- aofWrite

  /** One answer of write(2): some bytes, an interrupt, or an error. */
  datatype Answer = Took(n: nat) | Interrupted | Failed

  /** How many of len bytes get written; a device that answers no more takes the rest. */
  function Total(answers: seq<Answer>, len: nat): (t: nat)
    ensures t <= len
  {
    if len == 0 then 0
    else if answers == [] then len
    else
      match answers[0]
      case Interrupted => Total(answers[1..], len)
      case Failed => 0
      case Took(n) =>
        var k := if n < len then n else len;
        k + Total(answers[1..], len - k)
  }

  /** How many of len bytes are in the file after each write(2), when `done` were there before. */
  function Marks(answers: seq<Answer>, done: nat, len: nat): (r: seq<nat>)
    requires done <= len
    ensures forall i :: 0 <= i < |r| ==> r[i] <= len
    decreases |answers|
  {
    if done == len then []
    else if answers == [] then [len]
    else
      match answers[0]
      case Interrupted => Marks(answers[1..], done, len)
      case Failed => []
      case Took(n) =>
        var next := if n < len - done then done + n else len;
        [next] + Marks(answers[1..], next, len)
  }

  /** One turn of the loop over the answers. */
  lemma MarksStep(answers: seq<Answer>, done: nat, len: nat)
    requires done < len
    ensures answers == [] ==> Marks(answers, done, len) == [len] && Total(answers, len - done) == len - done
    ensures answers != [] && answers[0].Interrupted? ==>
      Marks(answers, done, len) == Marks(answers[1..], done, len) && Total(answers, len - done) == Total(answers[1..], len - done)
    ensures answers != [] && answers[0].Failed? ==> Marks(answers, done, len) == [] && Total(answers, len - done) == 0
    ensures answers != [] && answers[0].Took? ==>
      var next := if answers[0].n < len - done then done + answers[0].n else len;
      && Marks(answers, done, len) == [next] + Marks(answers[1..], next, len)
      && Total(answers, len - done) == next - done + Total(answers[1..], len - next)
  {
  }

  /** The last mark is the total. */
  lemma {:induction false} MarksTotal(answers: seq<Answer>, done: nat, len: nat)
    requires done <= len
    ensures var r, t := Marks(answers, done, len), done + Total(answers, len - done);
      && (forall i :: 0 <= i < |r| ==> done <= r[i] <= t)
      && (done < t ==> r != [] && r[|r| - 1] == t)
    decreases |answers|
  {
    if done < len && answers != [] {
      hide Marks, Total;
      MarksStep(answers, done, len);
      match answers[0] {
        case Interrupted => MarksTotal(answers[1..], done, len);
        case Failed =>
        case Took(n) =>
          var next := if n < len - done then done + n else len;
          MarksTotal(answers[1..], next, len);
      }
    }
  }

  /** The bytes taken by some answers, if there were enough to take. */
  function Taken(answers: seq<Answer>): nat {
    if answers == [] then 0
    else (if answers[0].Took? then answers[0].n else 0) + Taken(answers[1..])
  }

  /** Interrupts are of no consequence: without an error all is written, and otherwise what was taken
      before the first error. */
  lemma {:induction false} TotalIs(answers: seq<Answer>, len: nat, e: nat)
    requires e <= |answers| && (forall i :: 0 <= i < e ==> !answers[i].Failed?) && (e < |answers| ==> answers[e].Failed?)
    ensures Total(answers, len) == if e == |answers| || Taken(answers[..e]) >= len then len else Taken(answers[..e])
    decreases e
  {
    if e == 0 {
      assert answers[..0] == [];
    } else if len > 0 {
      assert answers[..e][1..] == answers[1..][..e - 1] && answers[..e][0] == answers[0];
      var k := if answers[0].Interrupted? then 0 else if answers[0].n < len then answers[0].n else len;
      TotalIs(answers[1..], len - k, e - 1);
    }
  }

  lemma MarksEnd(answers: seq<Answer>, len: nat)
    ensures Marks(answers, len, len) == [] && Total(answers, 0) == 0
  {
  }

  /** The state flushAppendOnlyFile works on. `fed` is everything that was ever appended to the
      buffer, after what the file held when it was opened. */
  datatype Log = Log(file: File, buf: seq<Byte>, lastIncrSize: nat, writeOk: bool, fed: seq<Byte>)

  /** The file and the buffer together are the fed stream, and the size is known. */
  predicate Consistent(s: Log) {
    s.file.content + s.buf == s.fed && s.lastIncrSize == |s.file.content|
  }

  /** The next write goes to the end of the file. */
  predicate AtEnd(f: File) {
    f.append || f.pos == |f.content|
  }

  /** feedAppendOnlyFile */
  function Feed(s: Log, data: seq<Byte>): Log {
    s.(buf := s.buf + data, fed := s.fed + data)
  }

  /** flushAppendOnlyFile with a policy other than "always": `written` bytes reach the file, and
      after a short write ftruncate works or not. */
  function Flush(s: Log, written: nat, truncated: bool): Log
    requires written <= |s.buf|
  {
    var f := WriteTo(s.file, s.buf[..written]);
    if written == |s.buf| then
      s.(file := f, buf := [], lastIncrSize := s.lastIncrSize + written, writeOk := s.buf != [] || s.writeOk)
    else if written == 0 then s.(file := f, writeOk := false)
    else if truncated then s.(file := TruncateTo(f, s.lastIncrSize), writeOk := false)
    else s.(file := f, buf := s.buf[written..], lastIncrSize := s.lastIncrSize + written, writeOk := false)
  }

  /** At the end of the file, or for nothing at all, a write continues the stream. */
  lemma Continues(f: File, buf: seq<Byte>, k: nat, stream: seq<Byte>)
    requires f.content + buf == stream && |f.content| <= f.pos && k <= |buf| && (AtEnd(f) || k == 0)
    ensures var g := WriteTo(f, buf[..k]);
      && g.content == stream[..|f.content| + k] && g.content + buf[k..] == stream
      && |g.content| == |f.content| + k <= g.pos
  {
    assert f.content + buf[..k] == stream[..|f.content| + k];
    assert f.content + buf[..k] + buf[k..] == stream;
    if k > 0 {
      assert WriteTo(f, buf[..k]).content == f.content + buf[..k];
    }
  }

  // ---------------------------------------------------------------- when it is right

  /** A flush keeps file and buffer consistent exactly when the write goes to the end, or
      nothing of it stays in the file. */
  lemma FlushIsConsistentIff(s: Log, written: nat, truncated: bool)
    requires Consistent(s) && written <= |s.buf| && |s.file.content| <= s.file.pos
    ensures Consistent(Flush(s, written, truncated)) <==>
      AtEnd(s.file) || written == 0 || (written < |s.buf| && truncated)
  {
    var s', data := Flush(s, written, truncated), s.buf[..written];
    assert s.buf == data + s.buf[written..];
    if AtEnd(s.file) {
      assert WriteTo(s.file, data).content == s.file.content + data;
      if written < |s.buf| && truncated && written > 0 {
        assert s'.file.content == s.file.content;
      } else {
        assert s.file.content + data + s.buf[written..] == s.file.content + s.buf;
      }
    } else if 0 < written < |s.buf| && truncated {
      assert s'.file.content == s.file.content;
    } else if written > 0 {
      assert |s'.file.content| > |s.file.content| + written;
    }
  }

  /** The offset never lags behind the end of the file, and it is at the end again after every
      flush except a short write that was truncated away. */
  lemma FlushOffset(s: Log, written: nat, truncated: bool)
    requires written <= |s.buf| && |s.file.content| <= s.file.pos && s.lastIncrSize == |s.file.content|
    ensures var s' := Flush(s, written, truncated);
      && s'.file.append == s.file.append
      && |s'.file.content| <= s'.file.pos
      && (AtEnd(s.file) ==> (AtEnd(s'.file) <==> s.file.append || !(0 < written < |s.buf| && truncated)))
  {
  }

  /** aof_last_write_status: right after a write it tells whether all was written; a flush of nothing
      leaves it alone. */
  lemma WriteStatus(s: Log, written: nat, truncated: bool)
    requires written <= |s.buf|
    ensures Flush(s, written, truncated).writeOk == if s.buf == [] then s.writeOk else written == |s.buf|
  {
  }

  datatype Event = FeedEvent(data: seq<Byte>) | FlushEvent(written: nat, truncated: bool)

  predicate Possible(s: Log, e: Event) {
    e.FlushEvent? ==> e.written <= |s.buf|
  }

  function Step(s: Log, e: Event): Log
    requires Possible(s, e)
  {
    match e
    case FeedEvent(data) => Feed(s, data)
    case FlushEvent(written, truncated) => Flush(s, written, truncated)
  }

  predicate PossibleRun(s: Log, es: seq<Event>)
    decreases |es|
  {
    es == [] || (Possible(s, es[0]) && PossibleRun(Step(s, es[0]), es[1..]))
  }

  function RunEnd(s: Log, es: seq<Event>): Log
    requires PossibleRun(s, es)
    decreases |es|
  {
    if es == [] then s else RunEnd(Step(s, es[0]), es[1..])
  }

  /** A short write that ftruncate took back. */
  predicate Repaired(s: Log, e: Event) {
    e.FlushEvent? && 0 < e.written < |s.buf| && e.truncated
  }

  predicate NeverRepaired(s: Log, es: seq<Event>)
    requires PossibleRun(s, es)
    decreases |es|
  {
    es == [] || (!Repaired(s, es[0]) && NeverRepaired(Step(s, es[0]), es[1..]))
  }

  /** Over any mix of feeds and of complete, short and failed writes: with O_APPEND, or as long
      as no short write had to be taken back, the file and the buffer are the fed stream. */
  lemma {:induction false} RunIsConsistent(s: Log, es: seq<Event>)
    requires Consistent(s) && AtEnd(s.file) && |s.file.content| <= s.file.pos && PossibleRun(s, es)
    requires s.file.append || NeverRepaired(s, es)
    ensures Consistent(RunEnd(s, es))
    decreases |es|
  {
    if es != [] {
      var e := es[0];
      match e {
        case FeedEvent(data) =>
          assert s.file.content + (s.buf + data) == s.file.content + s.buf + data;
        case FlushEvent(written, truncated) =>
          FlushIsConsistentIff(s, written, truncated);
          FlushOffset(s, written, truncated);
      }
      RunIsConsistent(Step(s, e), es[1..]);
    }
  }

  /** Without O_APPEND, a short write that was taken back leaves the offset past the end; the
      next complete write then leaves a hole of zero bytes in the file. */
  lemma RepairLeavesHole(s: Log, k: nat)
    requires Consistent(s) && AtEnd(s.file) && !s.file.append && 0 < k < |s.buf|
    ensures var s1 := Flush(s, k, true);
      var s2 := Flush(s1, |s1.buf|, true);
      && Consistent(s1) && s1.buf == s.buf
      && s2.file.content == s.file.content + Zeros(k) + s.buf && s2.buf == []
      && !Consistent(s2)
  {
    var s1 := Flush(s, k, true);
    FlushIsConsistentIff(s, k, true);
    assert s1.file.content == s.file.content;
    assert s1.buf[..|s1.buf|] == s.buf;
    var s2 := Flush(s1, |s1.buf|, true);
    assert |s2.file.content| == |s.file.content| + k + |s.buf|;
  }

  // ---------------------------------------------------------------- the code

  class Appender {
    var file: File
    var buf: seq<Byte>
    var lastIncrSize: nat
    var writeOk: bool
    ghost var fed: seq<Byte>

    ghost function View(): Log
      reads this
    {
      Log(file, buf, lastIncrSize, writeOk, fed)
    }

    /** The file as opened: at its end, with O_APPEND on server start and without it for the
        file of a rewrite. */
    constructor (content: seq<Byte>, append: bool)
      ensures Consistent(View()) && AtEnd(file) && file.append == append && file.content == content
    {
      file := File(content, |content|, append);
      buf, lastIncrSize, writeOk := [], |content|, true;
      fed := content;
    }

    /** aofWrite: retry short and interrupted writes until an error. */
    method AofWrite(data: seq<Byte>, answers: seq<Answer>) returns (r: int)
      modifies this`file
      ensures file == WriteTo(old(file), data[..Total(answers, |data|)])
      ensures r == if Total(answers, |data|) == 0 && data != [] then -1 else Total(answers, |data|)
    {
      var done, i := 0, 0;
      assert data[..0] == [];
      while done < |data|
        invariant 0 <= done <= |data| && 0 <= i <= |answers|
        invariant file == WriteTo(old(file), data[..done])
        invariant done + Total(answers[i..], |data| - done) == Total(answers, |data|)
        decreases |data| - done, |answers| - i
      {
        var nwritten: int := |data| - done;
        if i < |answers| {
          assert answers[i..][1..] == answers[i + 1..];
          match answers[i] {
            case Interrupted => i := i + 1; continue;
            case Failed => return if done == 0 then -1 else done;
            case Took(n) => if n < nwritten { nwritten := n; }
          }
          i := i + 1;
        }
        var next := done + nwritten;
        WriteTwice(old(file), data[..done], data[done..next]);
        assert data[..done] + data[done..next] == data[..next];
        file := WriteTo(file, data[done..next]);
        done := next;
      }
      assert data[..done] == data[..Total(answers, |data|)];
      r := done;
    }

    method Append(data: seq<Byte>)
      modifies this
      ensures View() == Feed(old(View()), data)
    {
      buf := buf + data;
      fed := fed + data;
    }

    /** flushAppendOnlyFile.  It may be postponed while an fsync is running; with an empty buffer
        there is nothing to write. */
    method FlushBuffer(postpone: bool, answers: seq<Answer>, truncateWorks: bool)
      modifies this
      ensures View() == if postpone || old(buf) == [] then old(View())
                        else Flush(old(View()), Total(answers, |old(buf)|), truncateWorks)
    {
      if |buf| == 0 || postpone { return; }
      var nwritten := AofWrite(buf, answers);
      if nwritten != |buf| {
        if nwritten != -1 && truncateWorks {
          file := TruncateTo(file, lastIncrSize);
          nwritten := -1;
        }
        writeOk := false;
        if nwritten > 0 {
          lastIncrSize := lastIncrSize + nwritten;
          buf := buf[nwritten..];
        }
        return;
      }
      writeOk := true;
      lastIncrSize := lastIncrSize + nwritten;
      buf := [];
    }
  }
}
