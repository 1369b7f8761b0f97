/**
  Read-only embedded files and the table of 64 file descriptors over them.
 */
module Files {

  import opened Wrappers
  import opened Words

  datatype File = File(path: string, data: Bytes)

  const MAX_FD := 64
  const FIRST_FD := 3
  const EBADF := 9
  const ENOENT := 2
  const EMFILE := 24

  // ---- The two embedded tables ------------------------------------------------------------

  /** The data of the first file of that name. */
  function Find(files: seq<File>, path: string): Option<Bytes> {
    if files == [] then None
    else if files[0].path == path then Some(files[0].data)
    else Find(files[1..], path)
  }

  lemma {:induction false} FindAppend(a: seq<File>, b: seq<File>, path: string)
    ensures Find(a + b, path) == if Find(a, path).Some? then Find(a, path) else Find(b, path)
  {
    if a == [] {
      assert a + b == b;
    } else {
      FindAppend(a[1..], b, path);
      assert (a + b)[1..] == a[1..] + b;
    }
  }

  /** The comparison loop advances both strings while they agree. */
  method StrEq(a: string, b: string) returns (equal: bool)
    ensures equal <==> a == b
  {
    var i := 0;
    while i < |a| && i < |b| && a[i] == b[i]
      invariant i <= |a| && i <= |b| && a[..i] == b[..i]
    {
      i := i + 1;
    }
    equal := i == |a| && i == |b|;
  }

  method Search(files: seq<File>, path: string) returns (data: Option<Bytes>)
    ensures data == Find(files, path)
  {
    for i := 0 to |files|
      invariant Find(files, path) == Find(files[i..], path)
    {
      var found := StrEq(path, files[i].path);
      if found {
        return Some(files[i].data);
      }
    }
    return None;
  }

  /** The generated scripts are searched before the editor's files. */
  method EmbeddedData(generated: seq<File>, mui: seq<File>, path: Option<string>) returns (data: Option<Bytes>)
    ensures data == if path == None then None else Find(generated + mui, path.value)
  {
    if path == None {
      return None;
    }
    FindAppend(generated, mui, path.value);
    data := Search(generated, path.value);
    if data == None {
      data := Search(mui, path.value);
    }
  }

  method FileExists(generated: seq<File>, mui: seq<File>, path: Option<string>) returns (exists': bool)
    ensures exists' <==> path.Some? && exists i :: 0 <= i < |generated + mui| && (generated + mui)[i].path == path.value
  {
    var data := EmbeddedData(generated, mui, path);
    if path.Some? {
      FindFinds(generated + mui, path.value);
    }
    exists' := data.Some?;
  }

  lemma {:induction false} FindFinds(files: seq<File>, path: string)
    ensures Find(files, path).Some? <==> exists i :: 0 <= i < |files| && files[i].path == path
  {
    if files != [] && files[0].path != path {
      FindFinds(files[1..], path);
      assert forall i | 0 <= i < |files| - 1 :: files[1..][i] == files[i + 1];
      if i :| 0 <= i < |files| && files[i].path == path {
        assert files[1..][i - 1] == files[i];
      }
    }
  }

  /** Entry i is the first of that name. */
  ghost predicate IsFirst(files: seq<File>, path: string, i: nat) {
    i < |files| && files[i].path == path && forall j | 0 <= j < i :: files[j].path != path
  }

  /** The search delivers the data of the first entry of that name. */
  lemma {:induction false} FindIsFirst(files: seq<File>, path: string, data: Bytes)
    ensures Find(files, path) == Some(data) <==> exists i: nat :: IsFirst(files, path, i) && files[i] == File(path, data)
  {
    if files != [] {
      if files[0].path == path {
        assert files[0] == File(path, files[0].data) && IsFirst(files, path, 0);
      } else {
        var rest := files[1..];
        FindIsFirst(rest, path, data);
        if i: nat :| IsFirst(files, path, i) && files[i] == File(path, data) {
          assert IsFirst(rest, path, i - 1) && rest[i - 1] == files[i];
        }
        if i: nat :| IsFirst(rest, path, i) && rest[i] == File(path, data) {
          assert forall j | 0 < j <= i :: files[j] == rest[j - 1];
          assert IsFirst(files, path, i + 1) && files[i + 1] == rest[i];
        }
      }
    }
  }

  // ---- Descriptors ------------------------------------------------------------------------

  /** One slot of the table; stdio slots and pipe ends are used without data. */
  datatype FdEntry = FdEntry(inUse: bool, data: Option<Bytes>, size: nat, offset: nat) {
    predicate Valid() {
      && offset <= size
      && size == (if data.Some? then |data.value| else 0)
      && (!inUse ==> this == CLOSED)
    }
  }

  const CLOSED := FdEntry(false, None, 0, 0)
  const STDIO := FdEntry(true, None, 0, 0)

  type Table = seq<FdEntry>

  ghost predicate ValidTable(t: Table) {
    |t| == MAX_FD && forall i | 0 <= i < MAX_FD :: t[i].Valid()
  }

  predicate InTable(fd: int) { 0 <= fd < MAX_FD }

  /** fd is the least unused descriptor from 3 on, or 64 when all are used. */
  predicate LeastFree(t: Table, from: int, fd: int)
    requires |t| == MAX_FD && FIRST_FD <= from
  {
    && from <= fd <= MAX_FD
    && (fd < MAX_FD ==> !t[fd].inUse)
    && forall i | from <= i < fd :: t[i].inUse
  }

  function FreeFrom(t: Table, from: int): (fd: int)
    requires |t| == MAX_FD && FIRST_FD <= from <= MAX_FD
    ensures LeastFree(t, from, fd)
    decreases MAX_FD - from
  {
    if from == MAX_FD || !t[from].inUse then from else FreeFrom(t, from + 1)
  }

  datatype Op =
    | Open(path: Option<string>)
    | Read(fd: int, count: nat)
    | Close(fd: int)
    | Dup(oldFd: int)
    | Dup2(oldFd: int, newFd: int)
    | Pipe

  /** What a call returns: a number, or the bytes it read. */
  datatype Reply = Code(n: int) | Ends(r: int, w: int) | Data(bytes: Bytes)

  predicate Readable(t: Table, fd: int)
    requires |t| == MAX_FD
  {
    FIRST_FD <= fd < MAX_FD && t[fd].inUse && t[fd].data.Some?
  }

  /** The bytes a read of a file descriptor delivers. */
  function ReadBytes(e: FdEntry, count: nat): Bytes
    requires e.Valid() && e.data.Some?
  {
    e.data.value[e.offset..e.offset + Min(count, e.size - e.offset)]
  }

  /** The table after a call and its reply; standard input delivers what the serial line has. */
  ghost function Step(files: seq<File>, serial: Bytes, t: Table, op: Op): (Table, Reply)
    requires ValidTable(t)
  {
    match op
    case Open(path) =>
      var data := if path == None then None else Find(files, path.value);
      var fd := FreeFrom(t, FIRST_FD);
      if data == None then (t, Code(-ENOENT))
      else if fd == MAX_FD then (t, Code(-EMFILE))
      else (t[fd := FdEntry(true, data, |data.value|, 0)], Code(fd))
    case Read(fd, count) =>
      if fd == 0 then (t, Data(serial[..Min(count, |serial|)]))
      else if Readable(t, fd) then
        var bytes := ReadBytes(t[fd], count);
        (t[fd := t[fd].(offset := t[fd].offset + |bytes|)], Data(bytes))
      else (t, Data([]))
    case Close(fd) =>
      if InTable(fd) then (t[fd := CLOSED], Code(0)) else (t, Code(-EBADF))
    case Dup(oldFd) =>
      var fd := FreeFrom(t, FIRST_FD);
      if !InTable(oldFd) then (t, Code(-EBADF))
      else if fd == MAX_FD then (t, Code(-EMFILE))
      else (t[fd := t[oldFd]], Code(fd))
    case Dup2(oldFd, newFd) =>
      if !InTable(oldFd) || !InTable(newFd) then (t, Code(-EBADF))
      else (t[newFd := t[oldFd]], Code(newFd))
    case Pipe =>
      var r := FreeFrom(t, FIRST_FD);
      if r == MAX_FD then (t, Code(-EMFILE))
      else
        var t' := t[r := t[r].(inUse := true)];
        var w := FreeFrom(t', r + 1);
        if w == MAX_FD then (t', Code(-EMFILE))
        else (t'[w := t'[w].(inUse := true)], Ends(r, w))
  }

  lemma StepKeepsValid(files: seq<File>, serial: Bytes, t: Table, op: Op)
    requires ValidTable(t)
    ensures ValidTable(Step(files, serial, t, op).0)
  {
  }

  function FreeSlots(t: Table): set<int>
    requires |t| == MAX_FD
  {
    set i | FIRST_FD <= i < MAX_FD && !t[i].inUse
  }

  /** A pipe needs two free slots. With exactly one it fails all the same and uses that slot up. */
  lemma FailingPipe(files: seq<File>, serial: Bytes, t: Table)
    requires ValidTable(t)
    ensures var (t', reply) := Step(files, serial, t, Pipe);
            && |t'| == MAX_FD
            && (reply.Code? <==> |FreeSlots(t)| < 2)
            && (reply.Code? ==> reply.n == -24 && FreeSlots(t') == {})
            && (reply.Code? ==> (t' == t <==> |FreeSlots(t)| == 0))
  {
    var (t', reply) := Step(files, serial, t, Pipe);
    var r := FreeFrom(t, FIRST_FD);
    if r == MAX_FD {
      assert FreeSlots(t) == {};
    } else if reply.Code? {
      forall i | FIRST_FD <= i < MAX_FD && i != r
        ensures t'[i].inUse && t[i].inUse
      {
        assert t'[i] == t[i];
      }
      assert FreeSlots(t) == {r};
    } else {
      assert {r, reply.w} <= FreeSlots(t);
      SubsetSize({r, reply.w}, FreeSlots(t));
    }
  }

  lemma SubsetSize(a: set<int>, b: set<int>)
    requires a <= b
    ensures |a| <= |b|
  {
    assert b == a + (b - a);
  }

  /** The descriptor that dup returns is in use exactly when the one it copies was. */
  lemma DupCopiesUse(files: seq<File>, serial: Bytes, t: Table, oldFd: int, fd: int)
    requires ValidTable(t) && fd >= 0 && Step(files, serial, t, Dup(oldFd)).1 == Code(fd)
    ensures var t' := Step(files, serial, t, Dup(oldFd)).0;
            && InTable(oldFd) && InTable(fd) && !t[fd].inUse && |t'| == MAX_FD
            && (t'[fd].inUse <==> t[oldFd].inUse)
            && (t' == t <==> !t[oldFd].inUse)
  {
    var t' := Step(files, serial, t, Dup(oldFd)).0;
    assert t'[fd] == t[oldFd];
    if !t[oldFd].inUse {
      assert t[fd] == t[oldFd] == CLOSED;
    }
  }

  /** Opening succeeds exactly when some entry has the path and some slot is free, and takes the least. */
  lemma OpenOutcome(files: seq<File>, serial: Bytes, t: Table, path: string)
    requires ValidTable(t)
    ensures var (t', reply) := Step(files, serial, t, Open(Some(path)));
            var known := exists i :: 0 <= i < |files| && files[i].path == path;
            && reply.Code? && |t'| == MAX_FD
            && (reply.n >= 0 <==> known && FreeSlots(t) != {})
            && (reply.n >= 0 ==> reply.n in FreeSlots(t) && FreeSlots(t') == FreeSlots(t) - {reply.n})
            && (reply.n >= 0 ==> forall k | k in FreeSlots(t) :: reply.n <= k)
            && (!known ==> reply.n == -2 && t' == t)
            && (known && FreeSlots(t) == {} ==> reply.n == -24 && t' == t)
  {
    FindFinds(files, path);
    var fd := FreeFrom(t, FIRST_FD);
    if fd < MAX_FD {
      assert fd in FreeSlots(t);
    } else {
      assert FreeSlots(t) == {};
    }
  }

  /** A read delivers as much as was asked for and is left, and moves on by that. */
  lemma ReadDelivers(files: seq<File>, serial: Bytes, t: Table, fd: int, count: nat)
    requires ValidTable(t) && Readable(t, fd)
    ensures var (t', reply) := Step(files, serial, t, Read(fd, count));
            var data, from := t[fd].data.value, t[fd].offset;
            var to := if count < |data| - from then from + count else |data|;
            reply == Data(data[from..to]) && t' == t[fd := t[fd].(offset := to)]
  {
  }

  /** Descriptor 0 reads the serial line; any other without a file reads as end of file. */
  lemma ReadWithoutFile(files: seq<File>, serial: Bytes, t: Table, fd: int, count: nat)
    requires ValidTable(t) && !Readable(t, fd)
    ensures var (t', reply) := Step(files, serial, t, Read(fd, count));
            t' == t && reply == Data(if fd != 0 then [] else if count < |serial| then serial[..count] else serial)
  {
  }

  /** A closed descriptor is free and reads as end of file; the others are as before. */
  lemma CloseFrees(files: seq<File>, serial: Bytes, t: Table, fd: int, count: nat)
    requires ValidTable(t)
    ensures var (t', reply) := Step(files, serial, t, Close(fd));
            && ValidTable(t')
            && (if 0 <= fd < 64 then reply == Code(0) && !t'[fd].inUse else reply == Code(-9) && t' == t)
            && (3 <= fd < 64 ==> FreeSlots(t') == FreeSlots(t) + {fd} && Step(files, serial, t', Read(fd, count)) == (t', Data([])))
            && forall i | 0 <= i < MAX_FD && i != fd :: t'[i] == t[i]
  {
  }

  /** A call that makes newFd a copy of oldFd. */
  predicate Duplicates(t: Table, op: Op, reply: Reply, oldFd: int, newFd: int) {
    && reply == Code(newFd) && newFd >= FIRST_FD
    && (op == Dup(oldFd) || op == Dup2(oldFd, newFd))
  }

  /** The copy reads what the original would read next, and does not move the original on. */
  lemma CopyReadsAlike(files: seq<File>, serial: Bytes, t: Table, op: Op, oldFd: int, newFd: int, count: nat)
    requires ValidTable(t) && oldFd >= FIRST_FD && Duplicates(t, op, Step(files, serial, t, op).1, oldFd, newFd)
    ensures var t' := Step(files, serial, t, op).0;
            && ValidTable(t')
            && (forall i | 0 <= i < MAX_FD && i != newFd :: t'[i] == t[i])
            && var (t2, reply) := Step(files, serial, t', Read(newFd, count));
               && reply == Step(files, serial, t, Read(oldFd, count)).1
               && |t2| == MAX_FD && (oldFd != newFd ==> t2[oldFd] == t[oldFd])
  {
  }

  /** A pipe that succeeds takes the two least free slots, and neither end has anything to read. */
  lemma PipeTakesTwo(files: seq<File>, serial: Bytes, t: Table, r: int, w: int, count: nat)
    requires ValidTable(t) && Step(files, serial, t, Pipe).1 == Ends(r, w)
    ensures var t' := Step(files, serial, t, Pipe).0;
            && ValidTable(t')
            && r < w && {r, w} <= FreeSlots(t) && FreeSlots(t') == FreeSlots(t) - {r, w}
            && (forall k | k in FreeSlots(t) && k != r :: w <= k)
            && Step(files, serial, t', Read(r, count)).1 == Step(files, serial, t', Read(w, count)).1 == Data([])
            && forall i | 0 <= i < MAX_FD && i != r && i != w :: t'[i] == t[i]
  {
    var t1 := t[r := t[r].(inUse := true)];
    assert w == FreeFrom(t1, r + 1);
    forall k | k in FreeSlots(t) && k != r
      ensures w <= k
    {
      assert t1[k] == t[k];
    }
  }

  /** One call of a session, with what the serial line would deliver during it. */
  datatype Event = Event(op: Op, serial: Bytes)

  ghost function Run(files: seq<File>, t: Table, events: seq<Event>): Table
    requires ValidTable(t)
    decreases |events|
  {
    if events == [] then t
    else
      StepKeepsValid(files, events[0].serial, t, events[0].op);
      Run(files, Step(files, events[0].serial, t, events[0].op).0, events[1..])
  }

  /** The bytes that one call delivers on a descriptor. */
  function Piece(op: Op, reply: Reply, fd: int): Bytes {
    if op.Read? && op.fd == fd && reply.Data? then reply.bytes else []
  }

  /** Everything the reads of one descriptor deliver during a session, in order. */
  ghost function Received(files: seq<File>, t: Table, events: seq<Event>, fd: int): Bytes
    requires ValidTable(t)
    decreases |events|
  {
    if events == [] then []
    else
      StepKeepsValid(files, events[0].serial, t, events[0].op);
      var (t', reply) := Step(files, events[0].serial, t, events[0].op);
      Piece(events[0].op, reply, fd) + Received(files, t', events[1..], fd)
  }

  /** The call neither closes the descriptor nor duplicates another one over it. */
  predicate Leaves(op: Op, fd: int) {
    op != Close(fd) && !(op.Dup2? && op.newFd == fd)
  }

  /** A call that leaves a descriptor alone moves its offset only by reading from it. */
  lemma StepLeaves(files: seq<File>, serial: Bytes, t: Table, op: Op, fd: int)
    requires ValidTable(t) && Readable(t, fd) && Leaves(op, fd)
    ensures var (t', reply) := Step(files, serial, t, op);
            && |t'| == MAX_FD
            && t'[fd] == (if op.Read? && op.fd == fd && reply.Data? then t[fd].(offset := t[fd].offset + |reply.bytes|) else t[fd])
            && (op.Read? && op.fd == fd ==> reply == Data(ReadBytes(t[fd], op.count)))
  {
  }

  /** The offset has moved on over exactly these bytes of the same file. */
  ghost predicate Advances(a: FdEntry, b: FdEntry, bytes: Bytes) {
    && a.data.Some? && b.data == a.data && b.inUse == a.inUse
    && a.offset <= b.offset <= |a.data.value|
    && bytes == a.data.value[a.offset..b.offset]
  }

  lemma StepAdvances(files: seq<File>, serial: Bytes, t: Table, op: Op, fd: int)
    requires ValidTable(t) && Readable(t, fd) && Leaves(op, fd)
    ensures var (t', reply) := Step(files, serial, t, op);
            |t'| == MAX_FD && Readable(t', fd) && Advances(t[fd], t'[fd], Piece(op, reply, fd))
  {
    StepLeaves(files, serial, t, op, fd);
    hide Step;
  }

  lemma AdvancesInTurn(a: FdEntry, b: FdEntry, c: FdEntry, first: Bytes, rest: Bytes)
    requires Advances(a, b, first) && Advances(b, c, rest)
    ensures Advances(a, c, first + rest)
  {
    Slices(a.data.value, a.offset, b.offset, c.offset);
  }

  /**
    Reads of any sizes on one descriptor, mixed with any calls on others, deliver consecutive
    pieces of its file.
   */
  lemma {:induction false} ReadsAreConsecutive(files: seq<File>, t: Table, events: seq<Event>, fd: int)
    requires ValidTable(t) && Readable(t, fd)
    requires forall e | e in events :: Leaves(e.op, fd)
    ensures var t' := Run(files, t, events);
            ValidTable(t') && Readable(t', fd) && Advances(t[fd], t'[fd], Received(files, t, events, fd))
    decreases |events|
  {
    if events != [] {
      var e := events[0];
      StepKeepsValid(files, e.serial, t, e.op);
      StepAdvances(files, e.serial, t, e.op, fd);
      var (t1, reply) := Step(files, e.serial, t, e.op);
      SessionUnfolds(files, t, events, fd);
      ReadsAreConsecutive(files, t1, events[1..], fd);
      hide Step, Run, Received, Piece, Advances, ValidTable, Readable, Leaves;
      AdvancesInTurn(t[fd], t1[fd], Run(files, t1, events[1..])[fd],
                     Piece(e.op, reply, fd), Received(files, t1, events[1..], fd));
    }
  }

  lemma SessionUnfolds(files: seq<File>, t: Table, events: seq<Event>, fd: int)
    requires ValidTable(t) && events != []
    ensures var e := events[0];
            var (t1, reply) := Step(files, e.serial, t, e.op);
            && ValidTable(t1)
            && Run(files, t, events) == Run(files, t1, events[1..])
            && Received(files, t, events, fd) ==
               Piece(e.op, reply, fd) + Received(files, t1, events[1..], fd)
  {
    StepKeepsValid(files, events[0].serial, t, events[0].op);
    hide Step;
  }

  lemma Slices(data: Bytes, a: nat, b: nat, c: nat)
    requires a <= b <= c <= |data|
    ensures data[a..c] == data[a..b] + data[b..c]
  {
  }

  /**
    From a fresh open on, what has been received is a prefix of the file, and a non-empty request
    returns nothing exactly when the prefix is the whole file.
   */
  lemma OpenThenReadAll(files: seq<File>, serial: Bytes, t: Table, i: nat, fd: int, events: seq<Event>, count: nat)
    requires ValidTable(t) && i < |files| && IsFirst(files, files[i].path, i)
    requires Step(files, serial, t, Open(Some(files[i].path))).1 == Code(fd) && fd >= 0
    requires forall e | e in events :: Leaves(e.op, fd)
    ensures LeastFree(t, FIRST_FD, fd) && fd < MAX_FD
    ensures var path, data := files[i].path, files[i].data;
            var t1 := Step(files, serial, t, Open(Some(path))).0;
            var t2 := Run(files, t1, events);
            && ValidTable(t1) && ValidTable(t2)
            && Received(files, t1, events, fd) <= data
            && (count > 0 ==>
                  (Step(files, serial, t2, Read(fd, count)).1 == Data([]) <==> Received(files, t1, events, fd) == data))
  {
    var path, data := files[i].path, files[i].data;
    FindIsFirst(files, path, data);
    assert files[i] == File(path, data);
    var t1 := Step(files, serial, t, Open(Some(path))).0;
    StepKeepsValid(files, serial, t, Open(Some(path)));
    ReadsAreConsecutive(files, t1, events, fd);
    var t2 := Run(files, t1, events);
    assert Received(files, t1, events, fd) == data[..t2[fd].offset];
    StepLeaves(files, serial, t2, Read(fd, count), fd);
    assert |ReadBytes(t2[fd], count)| == Min(count, t2[fd].size - t2[fd].offset);
  }

  // ---- The calls themselves ----------------------------------------------------------------

  class Descriptors {
    const generated: seq<File>
    const mui: seq<File>
    const table: array<FdEntry>

    ghost predicate Valid()
      reads table
    {
      ValidTable(table[..])
    }

    constructor (generated: seq<File>, mui: seq<File>)
      ensures Valid() && fresh(table) && this.generated == generated && this.mui == mui
      ensures table[..] == [STDIO, STDIO, STDIO] + seq(MAX_FD - 3, _ => CLOSED)
    {
      this.generated, this.mui := generated, mui;
      table := new FdEntry[MAX_FD](i => if i < FIRST_FD then STDIO else CLOSED);
    }

    /** The slot search of open and dup. */
    method FindFree(from: int) returns (fd: int)
      requires Valid() && FIRST_FD <= from <= MAX_FD
      ensures fd == FreeFrom(table[..], from)
    {
      fd := from;
      while fd < MAX_FD && table[fd].inUse
        invariant from <= fd <= MAX_FD
        invariant FreeFrom(table[..], from) == FreeFrom(table[..], fd)
      {
        fd := fd + 1;
      }
    }

    method SysOpen(path: Option<string>) returns (ret: int)
      requires Valid()
      modifies table
      ensures Valid() && (table[..], Code(ret)) == Step(generated + mui, [], old(table[..]), Open(path))
    {
      StepKeepsValid(generated + mui, [], table[..], Open(path));
      var data := EmbeddedData(generated, mui, path);
      if data.Some? {
        var i := FindFree(FIRST_FD);
        if i < MAX_FD {
          table[i] := FdEntry(true, data, |data.value|, 0);
          return i;
        }
        return -EMFILE;
      }
      return -ENOENT;
    }

    method SysRead(fd: int, count: nat, serial: Bytes) returns (bytes: Bytes)
      requires Valid()
      modifies table
      ensures Valid() && (table[..], Data(bytes)) == Step(generated + mui, serial, old(table[..]), Read(fd, count))
    {
      StepKeepsValid(generated + mui, serial, table[..], Read(fd, count));
      if fd == 0 {
        return serial[..Min(count, |serial|)];
      }
      if fd >= 3 && fd < MAX_FD && table[fd].inUse && table[fd].data.Some? {
        assert table[..][fd].Valid();
        var remaining := table[fd].size - table[fd].offset;
        if remaining == 0 {
          assert table[..] == table[..][fd := table[fd]];
          return [];
        }
        var toRead := if count < remaining then count else remaining;
        bytes := table[fd].data.value[table[fd].offset..table[fd].offset + toRead];
        table[fd] := table[fd].(offset := table[fd].offset + toRead);
        return;
      }
      return [];
    }

    method SysClose(fd: int) returns (ret: int)
      requires Valid()
      modifies table
      ensures Valid() && (table[..], Code(ret)) == Step(generated + mui, [], old(table[..]), Close(fd))
    {
      StepKeepsValid(generated + mui, [], table[..], Close(fd));
      if 0 <= fd < MAX_FD {
        table[fd] := FdEntry(false, None, 0, 0);
        return 0;
      }
      return -EBADF;
    }

    method SysDup(oldFd: int) returns (ret: int)
      requires Valid()
      modifies table
      ensures Valid() && (table[..], Code(ret)) == Step(generated + mui, [], old(table[..]), Dup(oldFd))
    {
      StepKeepsValid(generated + mui, [], table[..], Dup(oldFd));
      if oldFd < 0 || oldFd >= MAX_FD {
        return -EBADF;
      }
      var i := FindFree(FIRST_FD);
      if i < MAX_FD {
        table[i] := table[oldFd];
        return i;
      }
      return -EMFILE;
    }

    method SysDup2(oldFd: int, newFd: int) returns (ret: int)
      requires Valid()
      modifies table
      ensures Valid() && (table[..], Code(ret)) == Step(generated + mui, [], old(table[..]), Dup2(oldFd, newFd))
    {
      StepKeepsValid(generated + mui, [], table[..], Dup2(oldFd, newFd));
      if oldFd < 0 || oldFd >= MAX_FD || newFd < 0 || newFd >= MAX_FD {
        return -EBADF;
      }
      table[newFd] := table[oldFd];
      ret := newFd;
    }

    /** A single pass over the table marks the first two free slots it meets. */
    method SysPipe() returns (ret: Reply)
      requires Valid()
      modifies table
      ensures Valid() && (table[..], ret) == Step(generated + mui, [], old(table[..]), Pipe)
    {
      ghost var before := table[..];
      StepKeepsValid(generated + mui, [], before, Pipe);
      var r, w := -1, -1;
      var i := FIRST_FD;
      while i < MAX_FD && (r < 0 || w < 0)
        invariant FIRST_FD <= i <= MAX_FD
        invariant r < 0 ==> w < 0 && table[..] == before && FreeFrom(before, FIRST_FD) == FreeFrom(before, i)
        invariant r >= 0 ==> r == FreeFrom(before, FIRST_FD) < i
        invariant r >= 0 && w < 0 ==>
                    && table[..] == before[r := before[r].(inUse := true)]
                    && FreeFrom(table[..], r + 1) == FreeFrom(table[..], i)
        invariant w >= 0 ==>
                    && r < w < MAX_FD
                    && w == FreeFrom(before[r := before[r].(inUse := true)], r + 1)
                    && table[..] == before[r := before[r].(inUse := true)][w := before[w].(inUse := true)]
      {
        if !table[i].inUse {
          if r < 0 {
            r := i;
            table[i] := table[i].(inUse := true);
          } else {
            w := i;
            table[i] := table[i].(inUse := true);
          }
        }
        i := i + 1;
      }
      if r < 0 || w < 0 {
        return Code(-EMFILE);
      }
      return Ends(r, w);
    }
  }
}
