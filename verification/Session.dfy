/**
  Whole runs of the file system calls on one file: any sequence of reads and seeks on any file, and any
  sequence of reads, seeks, writes and finishing calls on a file that can be written.
*/
module Session {
  import opened Bytes
  import opened DiskIo
  import opened Fat
  import opened FileImage
  import opened FileWrite
  import opened Directory
  import opened PetitFat

  function Concat(s: seq<seq<byte>>): seq<byte> {
    if s == [] then [] else s[0] + Concat(s[1..])
  }

  // ---------- reading and seeking ----------

  datatype Op = Read(count: nat) | Seek(ofs: u32)

  datatype Reply = Reply(res: FResult, data: seq<byte>)

  /** Where a reader stands: at a position of the file, or with nothing open for the reason given. */
  datatype Cursor = Open(pos: nat) | Closed(why: FResult)

  function Target(size: nat, pos: nat, op: Op): nat {
    match op
    case Read(n) => Min(pos + n, size)
    case Seek(ofs) => Min(ofs, size)
  }

  /**
    What one call returns for a file of `size` bytes, the first of which are `bytes`, and where the cursor is
    then. Where the chain of the file is too short, a read returns what there is, and the file is closed.
  */
  function Answer(bytes: seq<byte>, size: nat, at: Cursor, op: Op): (Reply, Cursor) {
    match at
    case Closed(why) => (Reply(why, []), at)
    case Open(pos) =>
      var end := Target(size, pos, op);
      if end <= |bytes| then (Reply(Ok, if op.Read? && pos <= end then bytes[pos..end] else []), Open(end))
      else (Reply(DiskErr, if op.Read? && pos <= |bytes| then bytes[pos..|bytes|] else []), Closed(NotOpened))
  }

  /** What any sequence of calls returns. */
  function Answers(bytes: seq<byte>, size: nat, at: Cursor, ops: seq<Op>): (replies: seq<Reply>)
    ensures |replies| == |ops|
    decreases |ops|
  {
    if ops == [] then []
    else
      var (reply, next) := Answer(bytes, size, at, ops[0]);
      [reply] + Answers(bytes, size, next, ops[1..])
  }

  /** The same if transfers may fail: a call may then return only a part of the data, and the file is closed. */
  ghost predicate Plausible(bytes: seq<byte>, size: nat, at: Cursor, ops: seq<Op>, replies: seq<Reply>)
    decreases |ops|
  {
    if ops == [] then replies == []
    else
      && replies != []
      && var (reply, next) := Answer(bytes, size, at, ops[0]);
         || (replies[0] == reply && Plausible(bytes, size, next, ops[1..], replies[1..]))
         || (at.Open? && replies[0].res == DiskErr && replies[0].data <= reply.data
             && Plausible(bytes, size, Closed(NotOpened), ops[1..], replies[1..]))
  }

  function Total(ops: seq<Op>): nat {
    if ops == [] then 0 else (if ops[0].Read? then ops[0].count else 0) + Total(ops[1..])
  }

  function DataOf(replies: seq<Reply>): seq<byte> {
    if replies == [] then [] else replies[0].data + DataOf(replies[1..])
  }

  lemma Join(s: seq<byte>, a: nat, b: nat, c: nat)
    requires a <= b <= c <= |s|
    ensures s[a..b] + s[b..c] == s[a..c]
  {
  }

  lemma {:induction false} NothingFromClosed(bytes: seq<byte>, size: nat, why: FResult, ops: seq<Op>)
    ensures DataOf(Answers(bytes, size, Closed(why), ops)) == []
    decreases |ops|
  {
    if ops != [] {
      NothingFromClosed(bytes, size, why, ops[1..]);
      var replies := Answers(bytes, size, Closed(why), ops);
      assert replies[1..] == Answers(bytes, size, Closed(why), ops[1..]);
    }
  }

  /** Where reads of `total` bytes from `pos` on stop: there, at the end of the file, or where the chain ends. */
  function Stop(bytes: seq<byte>, size: nat, pos: nat, total: nat): nat {
    Min(Min(pos + total, size), |bytes|)
  }

  lemma StopNext(bytes: seq<byte>, size: nat, pos: nat, n: nat, total: nat)
    requires pos <= |bytes| && pos <= size
    ensures var end := Min(pos + n, size);
            Stop(bytes, size, pos, n + total) == if end <= |bytes| then Stop(bytes, size, end, total) else |bytes|
    ensures pos <= Stop(bytes, size, pos, total) <= |bytes|
    ensures pos <= Min(pos + n, size) <= size
  {
  }

  /** Reads without seeks return one piece of the file, however it is cut into chunks. */
  lemma {:induction false} Chunked(bytes: seq<byte>, size: nat, pos: nat, ops: seq<Op>)
    requires pos <= |bytes| && pos <= size && forall i | 0 <= i < |ops| :: ops[i].Read?
    ensures pos <= Stop(bytes, size, pos, Total(ops)) <= |bytes|
    ensures DataOf(Answers(bytes, size, Open(pos), ops)) == bytes[pos..Stop(bytes, size, pos, Total(ops))]
    decreases |ops|
  {
    hide Answers, Total, DataOf, Stop, Min;
    FirstChunk(bytes, size, pos, ops);
    if ops == [] {
      StopNext(bytes, size, pos, 0, 0);
      StopHere(bytes, size, pos);
    } else {
      var end, rest := Min(pos + ops[0].count, size), Total(ops[1..]);
      StopNext(bytes, size, pos, ops[0].count, rest);
      StopNext(bytes, size, pos, 0, Total(ops));
      if end <= |bytes| {
        Chunked(bytes, size, end, ops[1..]);
        Join(bytes, pos, end, Stop(bytes, size, end, rest));
      }
    }
  }

  lemma StopHere(bytes: seq<byte>, size: nat, pos: nat)
    requires pos <= |bytes| && pos <= size
    ensures Stop(bytes, size, pos, 0) == pos
  {
  }

  lemma FirstChunk(bytes: seq<byte>, size: nat, pos: nat, ops: seq<Op>)
    requires pos <= |bytes| && pos <= size && (ops != [] ==> ops[0].Read?)
    ensures ops == [] ==> DataOf(Answers(bytes, size, Open(pos), ops)) == [] && Total(ops) == 0
    ensures ops != [] ==>
              var end := Min(pos + ops[0].count, size);
              && Total(ops) == ops[0].count + Total(ops[1..])
              && DataOf(Answers(bytes, size, Open(pos), ops))
                   == if end <= |bytes| then bytes[pos..end] + DataOf(Answers(bytes, size, Open(end), ops[1..]))
                      else bytes[pos..|bytes|]
  {
    if ops != [] {
      var end := Min(pos + ops[0].count, size);
      var replies := Answers(bytes, size, Open(pos), ops);
      assert replies[1..] == Answers(bytes, size, if end <= |bytes| then Open(end) else Closed(NotOpened), ops[1..]);
      NothingFromClosed(bytes, size, NotOpened, ops[1..]);
    }
  }

  /** The bytes of the sectors of the file. */
  ghost function BytesOf(fs: FatFs): seq<byte>
    reads fs, fs.disk
  {
    if fs.Reachable() then fs.FileBytes() else []
  }

  ghost function CursorOf(fs: FatFs): Cursor
    reads fs
  {
    if !fs.mounted then Closed(NotEnabled) else if !fs.isOpen then Closed(NotOpened) else Open(fs.fptr)
  }

  /** The answer to a call, or, after a transfer error, a part of it. */
  predicate Answered(healthy: bool, bytes: seq<byte>, size: nat, at: Cursor, op: Op, reply: Reply, now: Cursor) {
    var (expected, next) := Answer(bytes, size, at, op);
    || (reply == expected && now == next)
    || (!healthy && at.Open? && reply.res == DiskErr && reply.data <= expected.data && now == Closed(NotOpened))
  }

  lemma ReadAnswered(healthy: bool, bytes: seq<byte>, size: nat, f: nat, n: nat, br: nat, reply: Reply, now: Cursor)
    requires f <= size && f <= |bytes| && br <= Min(n, size - f) && f + br <= |bytes|
    requires reply.data == bytes[f..f + br]
    requires reply.res == Ok ==> br == Min(n, size - f) && now == Open(f + br)
    requires reply.res != Ok ==> reply.res == DiskErr && now == Closed(NotOpened)
    requires healthy ==> (reply.res == Ok <==> f + Min(n, size - f) <= |bytes|)
    requires healthy && reply.res != Ok ==> f + br == |bytes|
    ensures Answered(healthy, bytes, size, Open(f), Read(n), reply, now)
  {
  }

  lemma ClosedAnswered(healthy: bool, bytes: seq<byte>, size: nat, at: Cursor, op: Op, reply: Reply)
    requires at.Closed? && reply == Reply(at.why, [])
    ensures Answered(healthy, bytes, size, at, op, reply, at)
  {
  }

  lemma Reader(fs: FatFs)
    requires fs.Valid() && fs.mounted && fs.isOpen
    ensures fs.Reachable() && fs.fptr <= fs.fsize && fs.fptr <= |fs.FileBytes()|
  {
    fs.CursorReachable();
  }

  method CallRead(fs: FatFs, n: nat) returns (reply: Reply)
    requires fs.Valid() && !fs.wip
    modifies fs.disk`block, fs.disk`pos
    modifies fs`isOpen, fs`wip, fs`fptr, fs`currClust, fs`dsect
    ensures fs.Valid() && !fs.wip && BytesOf(fs) == old(BytesOf(fs))
    ensures Answered(fs.disk.healthy, BytesOf(fs), fs.fsize, old(CursorOf(fs)), Read(n), reply, CursorOf(fs))
  {
    hide Content, FatFs.Valid, Answered;
    var buff := new byte[n](_ => 0);
    ghost var bytes, f := BytesOf(fs), fs.fptr;
    if fs.mounted && fs.isOpen {
      Reader(fs);
    }
    var res, br := fs.PfRead(buff, n);
    reply := Reply(res, buff[..br]);
    if fs.mounted && old(fs.isOpen) {
      ReadAnswered(fs.disk.healthy, bytes, fs.fsize, f, n, br, reply, CursorOf(fs));
    } else {
      ClosedAnswered(fs.disk.healthy, bytes, fs.fsize, CursorOf(fs), Read(n), reply);
    }
  }

  method CallSeek(fs: FatFs, ofs: u32) returns (reply: Reply)
    requires fs.Valid() && !fs.wip
    modifies fs.disk`block, fs.disk`pos
    modifies fs`isOpen, fs`wip, fs`fptr, fs`currClust, fs`dsect
    ensures fs.Valid() && !fs.wip && BytesOf(fs) == old(BytesOf(fs))
    ensures Answered(fs.disk.healthy, BytesOf(fs), fs.fsize, old(CursorOf(fs)), Seek(ofs), reply, CursorOf(fs))
  {
    hide Content, FatFs.Valid;
    if fs.mounted && fs.isOpen {
      Reader(fs);
    }
    var res := fs.PfLseek(ofs);
    if fs.mounted && fs.isOpen {
      Reader(fs);
    }
    reply := Reply(res, []);
  }

  /** One call. */
  method Call(fs: FatFs, op: Op) returns (reply: Reply)
    requires fs.Valid() && !fs.wip
    modifies fs.disk`block, fs.disk`pos
    modifies fs`isOpen, fs`wip, fs`fptr, fs`currClust, fs`dsect
    ensures fs.Valid() && !fs.wip && BytesOf(fs) == old(BytesOf(fs))
    ensures Answered(fs.disk.healthy, BytesOf(fs), fs.fsize, old(CursorOf(fs)), op, reply, CursorOf(fs))
  {
    hide FatFs.Valid, BytesOf, CursorOf, Answered;
    match op {
      case Read(n) => reply := CallRead(fs, n);
      case Seek(ofs) => reply := CallSeek(fs, ofs);
    }
  }

  /**
    Any sequence of reads and seeks acts as a cursor over the content of the file. On a healthy card the
    answers are exact, whatever the length of the chain; on any card they are right up to the first failure.
  */
  method RunCalls(fs: FatFs, ops: seq<Op>) returns (replies: seq<Reply>)
    requires fs.Valid() && !fs.wip
    modifies fs.disk`block, fs.disk`pos
    modifies fs`isOpen, fs`wip, fs`fptr, fs`currClust, fs`dsect
    ensures fs.Valid() && !fs.wip && BytesOf(fs) == old(BytesOf(fs))
    ensures fs.disk.healthy ==> replies == Answers(BytesOf(fs), fs.fsize, old(CursorOf(fs)), ops)
    ensures Plausible(BytesOf(fs), fs.fsize, old(CursorOf(fs)), ops, replies)
    decreases |ops|
  {
    hide BytesOf, CursorOf, FatFs.Valid, Answer;
    if ops == [] {
      return [];
    }
    var reply := Call(fs, ops[0]);
    var rest := RunCalls(fs, ops[1..]);
    replies := [reply] + rest;
    assert replies[1..] == rest;
  }

  // ---------- writing ----------

  /** Where a writer stands: the content of the file, the position, and whether a sector write is in progress;
      or the content, after a failure has closed the file. */
  datatype Pen = Pen(content: seq<byte>, pos: nat, wip: bool) | Dropped(content: seq<byte>)

  predicate Proper(size: nat, pen: Pen) {
    && |pen.content| % 512 == 0
    && (pen.Pen? ==> pen.pos <= |pen.content| && pen.pos <= size && (pen.wip ==> pen.pos % 512 != 0))
  }

  /** Where a write starts. */
  function Begin(pen: Pen): nat
    requires pen.Pen?
  {
    if pen.wip then pen.pos else pen.pos - pen.pos % 512
  }

  /** One call: an empty piece finishes the write in progress. */
  function Ink(size: nat, pen: Pen, piece: seq<byte>): (next: Pen)
    requires Proper(size, pen)
    ensures Proper(size, next)
  {
    if pen.Dropped? then pen
    else if piece == [] then pen.(wip := false)
    else
      var f := Begin(pen);
      var n := Min(|piece|, size - f);
      if f + n <= |pen.content| then Pen(Overwrite(pen.content, f, piece[..n]), f + n, (f + n) % 512 != 0)
      else Dropped(Overwrite(pen.content, f, piece[..|pen.content| - f]))
  }

  function InkAll(size: nat, pen: Pen, pieces: seq<seq<byte>>): (last: Pen)
    requires Proper(size, pen)
    ensures Proper(size, last)
    decreases |pieces|
  {
    if pieces == [] then pen else InkAll(size, Ink(size, pen, pieces[0]), pieces[1..])
  }

  /** The sector where the next write starts is the one the cursor is in. */
  predicate Resumes(v: Volume, pen: Pen)
    requires v.csize > 0
  {
    pen.Pen? ==> pen.wip || pen.pos % 512 == 0 || pen.pos / 512 == 0 || InCluster(v, pen.pos / 512) != 0
  }

  /** One write of all the data from a position on, cut at the size of the file, or where the chain ends. */
  function Written(size: nat, c: seq<byte>, pos: nat, d: seq<byte>): Pen
    requires pos <= |c| && pos <= size
  {
    var n := Min(|d|, size - pos);
    if pos + n <= |c| then Pen(Overwrite(c, pos, d[..n]), pos + n, (pos + n) % 512 != 0)
    else Dropped(Overwrite(c, pos, d[..|c| - pos]))
  }

  lemma {:induction false} InkDropped(size: nat, c: seq<byte>, pieces: seq<seq<byte>>)
    requires |c| % 512 == 0
    ensures InkAll(size, Dropped(c), pieces) == Dropped(c)
    decreases |pieces|
  {
    if pieces != [] {
      InkDropped(size, c, pieces[1..]);
    }
  }

  /** A piece first, and then what follows it. */
  lemma WrittenNext(size: nat, c: seq<byte>, pos: nat, p: seq<byte>, rest: seq<byte>)
    requires |c| % 512 == 0 && pos <= |c| && pos <= size
    ensures var first := Written(size, c, pos, p);
            && Proper(size, first) && (first.Pen? ==> first.wip == (first.pos % 512 != 0))
            && Written(size, c, pos, p + rest)
                 == if first.Pen? then Written(size, first.content, first.pos, rest) else first
  {
    hide Overwrite;
    var n := Min(|p|, size - pos);
    if pos + n > |c| {
      assert (p + rest)[..|c| - pos] == p[..|c| - pos];
    } else if n < |p| {
      assert (p + rest)[..n] == p[..n];
      OverwriteNothing(Overwrite(c, pos, p[..n]), size);
    } else {
      assert p[..n] == p;
      WrittenWhole(size, c, pos, p, rest);
    }
  }

  lemma WrittenWhole(size: nat, c: seq<byte>, pos: nat, p: seq<byte>, rest: seq<byte>)
    requires |c| % 512 == 0 && pos + |p| <= |c| && pos + |p| <= size
    ensures Written(size, c, pos, p + rest) == Written(size, Overwrite(c, pos, p), pos + |p|, rest)
  {
    hide Overwrite;
    var k := Min(|rest|, size - pos - |p|);
    var l := if pos + |p| + k <= |c| then k else |c| - pos - |p|;
    assert (p + rest)[..|p| + l] == p + rest[..l];
    OverwriteTwice(c, pos, p, rest[..l]);
  }

  lemma InkIsWritten(size: nat, c: seq<byte>, pos: nat, p: seq<byte>)
    requires |c| % 512 == 0 && pos <= |c| && pos <= size && p != []
    ensures Proper(size, Pen(c, pos, pos % 512 != 0))
    ensures Ink(size, Pen(c, pos, pos % 512 != 0), p) == Written(size, c, pos, p)
  {
    hide Overwrite;
  }

  lemma WrittenNothing(size: nat, c: seq<byte>, pos: nat)
    requires |c| % 512 == 0 && pos <= |c| && pos <= size
    ensures Written(size, c, pos, []) == Pen(c, pos, pos % 512 != 0)
  {
    OverwriteNothing(c, pos);
  }

  /** Writes without finishing calls between them are one write of all their data. */
  lemma {:induction false} InkJoined(size: nat, c: seq<byte>, pos: nat, pieces: seq<seq<byte>>)
    requires |c| % 512 == 0 && pos <= |c| && pos <= size && forall i | 0 <= i < |pieces| :: pieces[i] != []
    ensures InkAll(size, Pen(c, pos, pos % 512 != 0), pieces) == Written(size, c, pos, Concat(pieces))
    decreases |pieces|
  {
    hide Written, Ink;
    if pieces == [] {
      WrittenNothing(size, c, pos);
    } else {
      var p, rest := pieces[0], Concat(pieces[1..]);
      InkIsWritten(size, c, pos, p);
      WrittenNext(size, c, pos, p, rest);
      var first := Written(size, c, pos, p);
      if first.Pen? {
        InkJoined(size, first.content, first.pos, pieces[1..]);
      } else {
        InkDropped(size, first.content, pieces[1..]);
      }
    }
  }

  // ---------- reading and writing ----------

  /** A call: reading, seeking, or writing; a write of nothing finishes the write in progress. */
  datatype Action = Get(op: Op) | Put(piece: seq<byte>)

  datatype Result = Got(reply: Reply) | Wrote(res: FResult, count: nat)

  function CursorAt(pen: Pen): Cursor {
    if pen.Pen? then Open(pen.pos) else Closed(NotOpened)
  }

  function PenAt(content: seq<byte>, at: Cursor): Pen {
    if at.Open? then Pen(content, at.pos, false) else Dropped(content)
  }

  /** What a call that writes returns. */
  function InkResult(size: nat, pen: Pen, piece: seq<byte>): Result
    requires Proper(size, pen)
  {
    if pen.Dropped? then Wrote(NotOpened, 0)
    else if piece == [] then Wrote(Ok, 0)
    else
      var f := Begin(pen);
      var n := Min(|piece|, size - f);
      if f + n <= |pen.content| then Wrote(Ok, n) else Wrote(DiskErr, |pen.content| - f)
  }

  /** What one call returns, and where the file stands then. */
  function Act(size: nat, pen: Pen, action: Action): (r: (Result, Pen))
    requires Proper(size, pen)
    ensures Proper(size, r.1)
  {
    match action
    case Get(op) =>
      var (reply, at) := Answer(pen.content, size, CursorAt(pen), op);
      (Got(reply), PenAt(pen.content, at))
    case Put(piece) => (InkResult(size, pen, piece), Ink(size, pen, piece))
  }

  /** What any sequence of calls returns, and where the file stands at its end. */
  function ActAll(size: nat, pen: Pen, actions: seq<Action>): (r: (seq<Result>, Pen))
    requires Proper(size, pen)
    ensures |r.0| == |actions| && Proper(size, r.1)
    decreases |actions|
  {
    if actions == [] then ([], pen)
    else
      var (result, next) := Act(size, pen, actions[0]);
      var (rest, last) := ActAll(size, next, actions[1..]);
      ([result] + rest, last)
  }

  /** No reading or seeking while a write is in progress, and writes only where they resume. */
  predicate Allowed(v: Volume, pen: Pen, action: Action)
    requires v.csize > 0
  {
    match action
    case Get(_) => pen.Pen? ==> !pen.wip
    case Put(piece) => piece != [] ==> Resumes(v, pen)
  }

  predicate AllowedAll(v: Volume, size: nat, pen: Pen, actions: seq<Action>)
    requires v.csize > 0 && Proper(size, pen)
    decreases |actions|
  {
    actions == [] ||
    (Allowed(v, pen, actions[0]) && AllowedAll(v, size, Act(size, pen, actions[0]).1, actions[1..]))
  }

  /** A call struck by a transfer error: it has done a part of what it should, and the file is closed. */
  predicate Failed(size: nat, pen: Pen, action: Action, result: Result, after: Pen) {
    && pen.Pen? && after.Dropped?
    && match (action, result)
       case (Get(op), Got(reply)) =>
         && reply.res == DiskErr && after.content == pen.content
         && reply.data <= Answer(pen.content, size, CursorAt(pen), op).0.data
       case (Put(piece), Wrote(res, count)) => res == DiskErr && count <= |piece|
       case _ => false
  }

  predicate Did(healthy: bool, size: nat, before: Pen, action: Action, result: Result, after: Pen)
    requires Proper(size, before)
  {
    (result, after) == Act(size, before, action) || (!healthy && Failed(size, before, action, result, after))
  }

  /** What calls return while no file is open. */
  function Refusals(actions: seq<Action>): seq<Result> {
    if actions == [] then []
    else [if actions[0].Get? then Got(Reply(NotOpened, [])) else Wrote(NotOpened, 0)] + Refusals(actions[1..])
  }

  /** What a run may do if transfers may fail: all calls do what they should up to the first that fails. */
  ghost predicate PlausibleAll(size: nat, pen: Pen, actions: seq<Action>, results: seq<Result>, last: Pen)
    requires Proper(size, pen)
    decreases |actions|
  {
    if actions == [] then results == [] && last == pen
    else
      && results != []
      && var (result, next) := Act(size, pen, actions[0]);
         || (results[0] == result && PlausibleAll(size, next, actions[1..], results[1..], last))
         || (Failed(size, pen, actions[0], results[0], last) && results[1..] == Refusals(actions[1..]))
  }

  lemma {:induction false} PlausibleDropped(size: nat, pen: Pen, actions: seq<Action>, results: seq<Result>, last: Pen)
    requires Proper(size, pen) && pen.Dropped? && PlausibleAll(size, pen, actions, results, last)
    ensures results == Refusals(actions) && last == pen
    decreases |actions|
  {
    if actions != [] {
      PlausibleDropped(size, pen, actions[1..], results[1..], last);
      assert results == [results[0]] + results[1..];
    }
  }

  lemma {:induction false} AllowedDropped(v: Volume, size: nat, pen: Pen, actions: seq<Action>)
    requires v.csize > 0 && pen.Dropped? && Proper(size, pen)
    ensures AllowedAll(v, size, pen, actions)
    decreases |actions|
  {
    if actions != [] {
      AllowedDropped(v, size, pen, actions[1..]);
    }
  }

  function Puts(pieces: seq<seq<byte>>): (actions: seq<Action>)
    ensures |actions| == |pieces|
  {
    if pieces == [] then [] else [Put(pieces[0])] + Puts(pieces[1..])
  }

  lemma {:induction false} PutsInk(size: nat, pen: Pen, pieces: seq<seq<byte>>)
    requires Proper(size, pen)
    ensures ActAll(size, pen, Puts(pieces)).1 == InkAll(size, pen, pieces)
    decreases |pieces|
  {
    if pieces != [] {
      PutsInk(size, Ink(size, pen, pieces[0]), pieces[1..]);
      assert Puts(pieces)[1..] == Puts(pieces[1..]);
    }
  }

  ghost function PenOf(fs: FatFs): (pen: Pen)
    requires fs.Reachable()
    reads fs, fs.disk
  {
    if fs.isOpen then Pen(fs.ImageBytes(), fs.fptr, fs.wip) else Dropped(fs.ImageBytes())
  }

  /** A file that can be written. */
  ghost predicate Writing(fs: FatFs)
    reads fs, fs.disk
  {
    && fs.mounted && fs.Valid() && fs.Reachable()
    && Writable(fs.vol, fs.track.lbas) && fs.vol.database > 0 && fs.vol.csize > 0
  }

  lemma PenProper(fs: FatFs)
    requires Writing(fs)
    ensures Proper(fs.fsize, PenOf(fs))
  {
  }

  lemma Quiet(fs: FatFs)
    requires fs.Reachable() && !fs.wip
    ensures fs.ImageBytes() == fs.FileBytes()
  {
  }

  /** What an open file says about the write in progress. */
  lemma Progressing(fs: FatFs)
    requires Writing(fs)
    ensures fs.wip ==> fs.isOpen && fs.fptr % 512 != 0
    ensures fs.isOpen ==> fs.fptr <= fs.fsize
    ensures fs.isOpen ==> fs.fptr <= |fs.ImageBytes()|
    ensures |fs.ImageBytes()| == 512 * |fs.track.lbas|
  {
    PenProper(fs);
  }

  /** The finishing call. */
  method Finish(fs: FatFs) returns (result: Result)
    requires Writing(fs) && fs.isOpen
    modifies fs.disk, fs`isOpen, fs`wip, fs`fptr, fs`currClust, fs`dsect
    ensures Writing(fs) && fs.OthersKept() && Proper(fs.fsize, old(PenOf(fs)))
    ensures Did(fs.disk.healthy, fs.fsize, old(PenOf(fs)), Put([]), result, PenOf(fs))
  {
    hide Content, FatFits, Distinct, Follows, LocatorOf, AtByte, InCluster;
    PenProper(fs);
    var buff := new byte[0];
    var res, bw := fs.PfWrite(buff, 0);
    result := Wrote(res, bw);
  }

  lemma PutDid(healthy: bool, size: nat, before: Pen, piece: seq<byte>, res: FResult, bw: nat, after: Pen)
    requires Proper(size, before) && before.Pen? && piece != []
    requires res == if after.Pen? then Ok else DiskErr
    requires var f := Begin(before); var n := Min(|piece|, size - f);
             && bw <= n
             && (after.Pen? ==> bw == n && f + n <= |before.content|
                                && after == Pen(Overwrite(before.content, f, piece[..n]), f + n, (f + n) % 512 != 0))
             && (healthy ==> (after.Pen? <==> f + n <= |before.content|))
             && (healthy && after.Dropped? ==>
                   f + bw == |before.content| && after.content == Overwrite(before.content, f, piece[..bw]))
    ensures Did(healthy, size, before, Put(piece), Wrote(res, bw), after)
  {
  }

  /** A call that writes to an open file. */
  method PutOpen(fs: FatFs, piece: seq<byte>) returns (result: Result)
    requires Writing(fs) && fs.isOpen && piece != [] && Resumes(fs.vol, PenOf(fs))
    modifies fs.disk, fs`isOpen, fs`wip, fs`fptr, fs`currClust, fs`dsect
    ensures Writing(fs) && fs.OthersKept() && Proper(fs.fsize, old(PenOf(fs)))
    ensures Did(fs.disk.healthy, fs.fsize, old(PenOf(fs)), Put(piece), result, PenOf(fs))
  {
    hide Overwrite, Content, FatFs.Image, FatFits, Distinct, Follows, LocatorOf, AtByte, InCluster, Did;
    hide FatFs.ImageBytes, FatFs.FileBytes, FatFs.Valid, Writable;
    PenProper(fs);
    Progressing(fs);
    ghost var before := PenOf(fs);
    var buff := new byte[|piece|](i requires 0 <= i < |piece| => piece[i]);
    assert buff[..] == piece;
    var res, bw := fs.PfWrite(buff, |piece|);
    assert buff[..bw] == piece[..bw];
    result := Wrote(res, bw);
    Progressing(fs);
    if !fs.isOpen {
      Quiet(fs);
    }
    PutDid(fs.disk.healthy, fs.fsize, before, piece, res, bw, PenOf(fs));
  }

  /** A call that writes, without an open file. */
  method PutClosed(fs: FatFs, piece: seq<byte>) returns (result: Result)
    requires Writing(fs) && !fs.isOpen
    modifies fs.disk, fs`isOpen, fs`wip, fs`fptr, fs`currClust, fs`dsect
    ensures Writing(fs) && fs.OthersKept() && Proper(fs.fsize, old(PenOf(fs)))
    ensures result == Wrote(NotOpened, 0) && PenOf(fs) == old(PenOf(fs))
  {
    hide Content, FatFits, Distinct, Follows, LocatorOf, AtByte, InCluster;
    PenProper(fs);
    var buff := new byte[|piece|](i requires 0 <= i < |piece| => piece[i]);
    var res, bw := fs.PfWrite(buff, |piece|);
    result := Wrote(res, bw);
  }

  /** A reader's view of a file with no write in progress. */
  lemma ReadingPen(fs: FatFs)
    requires Writing(fs) && !fs.wip
    ensures PenOf(fs) == PenAt(BytesOf(fs), CursorOf(fs))
    ensures CursorOf(fs) == CursorAt(PenOf(fs)) && PenOf(fs).content == BytesOf(fs)
  {
    Quiet(fs);
  }

  lemma GetDid(healthy: bool, size: nat, before: Pen, op: Op, reply: Reply, now: Cursor, after: Pen)
    requires Proper(size, before) && after == PenAt(before.content, now)
    requires Answered(healthy, before.content, size, CursorAt(before), op, reply, now)
    ensures Did(healthy, size, before, Get(op), Got(reply), after)
  {
  }

  /** A call that reads or seeks. */
  method GetAny(fs: FatFs, op: Op) returns (result: Result)
    requires Writing(fs) && !fs.wip
    modifies fs.disk`block, fs.disk`pos
    modifies fs`isOpen, fs`wip, fs`fptr, fs`currClust, fs`dsect
    ensures Writing(fs) && Proper(fs.fsize, old(PenOf(fs)))
    ensures Did(fs.disk.healthy, fs.fsize, old(PenOf(fs)), Get(op), result, PenOf(fs))
  {
    hide BytesOf, CursorOf, FatFs.Valid, Content, Answered, Did, PenOf, PenAt, CursorAt, Proper;
    PenProper(fs);
    ReadingPen(fs);
    ghost var before := PenOf(fs);
    var reply := Call(fs, op);
    ReadingPen(fs);
    GetDid(fs.disk.healthy, fs.fsize, before, op, reply, CursorOf(fs), PenOf(fs));
    result := Got(reply);
  }

  /** One call. */
  method Do(fs: FatFs, action: Action) returns (result: Result)
    requires Writing(fs) && Allowed(fs.vol, PenOf(fs), action)
    modifies fs.disk, fs`isOpen, fs`wip, fs`fptr, fs`currClust, fs`dsect
    ensures Writing(fs) && fs.OthersKept() && Proper(fs.fsize, old(PenOf(fs)))
    ensures Did(fs.disk.healthy, fs.fsize, old(PenOf(fs)), action, result, PenOf(fs))
  {
    hide Resumes, FatFs.ImageBytes, Content, FatFs.Valid, Writable;
    Progressing(fs);
    match action {
      case Get(op) => result := GetAny(fs, op);
      case Put(piece) =>
        if !fs.isOpen {
          result := PutClosed(fs, piece);
        } else if piece == [] {
          result := Finish(fs);
        } else {
          result := PutOpen(fs, piece);
        }
    }
  }

  /**
    Any sequence of reads, seeks, writes and finishing calls, from any state of the file, as long as a write is
    finished before the next read or seek, and no write starts in mid-sector in the first sector of a later
    cluster. On a healthy card the results and the file are exact, whatever the length of the chain; on any
    card they are so up to the first call that fails. Sectors outside the file, and so all FAT entries, are as
    before.
  */
  method Run(fs: FatFs, actions: seq<Action>) returns (results: seq<Result>)
    requires Writing(fs) && Proper(fs.fsize, PenOf(fs)) && AllowedAll(fs.vol, fs.fsize, PenOf(fs), actions)
    modifies fs.disk, fs`isOpen, fs`wip, fs`fptr, fs`currClust, fs`dsect
    ensures Writing(fs) && fs.OthersKept()
    ensures fs.disk.healthy ==> (results, PenOf(fs)) == ActAll(fs.fsize, old(PenOf(fs)), actions)
    ensures PlausibleAll(fs.fsize, old(PenOf(fs)), actions, results, PenOf(fs))
    ensures forall c: u32 :: FatEntry(fs.vol, fs.disk.sectors, c) == FatEntry(fs.vol, old(fs.disk.sectors), c)
    decreases |actions|
  {
    hide Writing, PenOf, Allowed, FatEntry, Act, Failed, Proper;
    if actions == [] {
      return [];
    }
    PenIsProper(fs);
    ghost var before, pen := fs.disk.sectors, PenOf(fs);
    var result := Do(fs, actions[0]);
    PenIsProper(fs);
    ghost var now := PenOf(fs);
    FailedDrops(fs.fsize, pen, actions[0], result, now);
    if now.Dropped? {
      AllowedDropped(fs.vol, fs.fsize, now, actions[1..]);
    }
    var rest := Run(fs, actions[1..]);
    if now.Dropped? {
      PlausibleDropped(fs.fsize, now, actions[1..], rest, PenOf(fs));
    }
    results := [result] + rest;
    assert results[1..] == rest;
    WritableFile(fs);
    FatKept(fs.vol, before, fs.disk.sectors, fs.track.lbas);
  }

  lemma FailedDrops(size: nat, pen: Pen, action: Action, result: Result, after: Pen)
    ensures Failed(size, pen, action, result, after) ==> after.Dropped?
  {
  }

  /** Writes and finishing calls only. */
  method RunWrites(fs: FatFs, pieces: seq<seq<byte>>) returns (results: seq<Result>)
    requires Writing(fs) && Proper(fs.fsize, PenOf(fs)) && AllowedAll(fs.vol, fs.fsize, PenOf(fs), Puts(pieces))
    modifies fs.disk, fs`isOpen, fs`wip, fs`fptr, fs`currClust, fs`dsect
    ensures Writing(fs) && fs.OthersKept()
    ensures fs.disk.healthy ==> PenOf(fs) == InkAll(fs.fsize, old(PenOf(fs)), pieces)
    ensures PenOf(fs).Dropped? || PenOf(fs) == InkAll(fs.fsize, old(PenOf(fs)), pieces)
    ensures forall c: u32 :: FatEntry(fs.vol, fs.disk.sectors, c) == FatEntry(fs.vol, old(fs.disk.sectors), c)
  {
    hide Writing, PenOf, FatEntry, ActAll, InkAll, Proper;
    PenIsProper(fs);
    ghost var pen := PenOf(fs);
    PutsInk(fs.fsize, pen, pieces);
    results := Run(fs, Puts(pieces));
    PlausibleEnd(fs.fsize, pen, Puts(pieces), results, PenOf(fs));
  }

  lemma {:induction false} PlausibleEnd(size: nat, pen: Pen, actions: seq<Action>, results: seq<Result>, last: Pen)
    requires Proper(size, pen) && PlausibleAll(size, pen, actions, results, last)
    ensures last.Dropped? || (results, last) == ActAll(size, pen, actions)
    decreases |actions|
  {
    hide Act, Failed;
    if actions != [] {
      var (result, next) := Act(size, pen, actions[0]);
      FailedDrops(size, pen, actions[0], results[0], last);
      assert results == [results[0]] + results[1..];
      if results[0] == result && PlausibleAll(size, next, actions[1..], results[1..], last) {
        PlausibleEnd(size, next, actions[1..], results[1..], last);
      }
    }
  }

  lemma PenIsProper(fs: FatFs)
    requires Writing(fs)
    ensures fs.Reachable() && fs.vol.csize > 0 && Proper(fs.fsize, PenOf(fs))
  {
    PenProper(fs);
  }

  lemma WritableFile(fs: FatFs)
    requires Writing(fs)
    ensures Writable(fs.vol, fs.track.lbas)
  {
  }

  lemma FatKept(v: Volume, before: seq<Sector>, after: seq<Sector>, lbas: seq<nat>)
    requires Writable(v, lbas) && |before| == |after|
    requires forall i | 0 <= i < |before| && i !in lbas :: after[i] == before[i]
    ensures forall c: u32 :: FatEntry(v, after, c) == FatEntry(v, before, c)
  {
    hide FatEntry, FatFits;
    assert SameBefore(before, after, v.database);
    forall c: u32
      ensures FatEntry(v, after, c) == FatEntry(v, before, c)
    {
      FatFrame(v, before, after, c);
    }
  }

  /** A file just opened can be written if its clusters are distinct, on a volume that lies on the disk. */
  lemma OpenedWriting(fs: FatFs, e: Entry)
    requires fs.mounted && fs.Valid() && !fs.wip && fs.OpenedAs(e)
    requires DataOnDisk(fs.vol, |fs.disk.sectors|) && FatFits(fs.vol)
    requires fs.vol.csize > 0
    requires var chain := ChainOf(fs.vol, fs.disk.sectors, fs.orgClust, fs.fsize);
             forall i, j | 0 <= i < j < |chain| :: chain[i] != chain[j]
    ensures Writing(fs) && PenOf(fs) == Pen(BytesOf(fs), 0, false)
    ensures FileData(fs.vol, fs.disk.sectors, e) == BytesOf(fs)[..Min(fs.fsize, |BytesOf(fs)|)]
  {
    hide Content, ChainOf, FatFits, Distinct, Follows, LocatorOf, FatFs.Valid, LdDword;
    var chain := ChainOf(fs.vol, fs.disk.sectors, fs.orgClust, fs.fsize);
    ChainInside(fs.vol, fs.disk.sectors, fs.orgClust, fs.fsize);
    ChainWritable(fs.vol, fs.disk.sectors, chain);
    LbasOnDisk(fs.vol, fs.disk.sectors, chain);
    Quiet(fs);
  }
}
