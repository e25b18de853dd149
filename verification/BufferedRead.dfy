/** Reading with a buffer and a timeout (_read and _readline in httpd.c).  The socket is a list of what
    select and read will report, one arrival after the other. */
module BufferedRead {
  import opened Words
  import opened Memory

  const IO_BUFFER: nat := 256
  const LF: Byte := 10

  /** A timeout of select; a read of some bytes; a read that finds the connection closed, or fails. */
  datatype Arrival = Timeout | Data(bytes: seq<Byte>) | Closed | Failure

  ghost predicate Possible(arrivals: seq<Arrival>)
  {
    forall i :: 0 <= i < |arrivals| && arrivals[i].Data? ==> 1 <= |arrivals[i].bytes| <= IO_BUFFER
  }

  /** The stream up to its first line end, or its first `len` bytes. */
  function Line(s: seq<Byte>, len: nat): seq<Byte>
  {
    if s == [] || len == 0 then [] else if s[0] == LF then [LF] else [s[0]] + Line(s[1..], len - 1)
  }

  /** No line end before the last byte. */
  ghost predicate Unended(line: seq<Byte>)
  {
    forall i :: 0 <= i < |line| - 1 ==> line[i] != LF
  }

  lemma UnendedSnoc(line: seq<Byte>, c: Byte)
    ensures Unended([])
    ensures Unended(line) && (line == [] || line[|line| - 1] != LF) ==> Unended(line + [c])
  {
  }

  /** A line is a prefix of the stream without a line end before its last byte, and complete. */
  lemma {:induction false} LineIs(s: seq<Byte>, p: seq<Byte>, len: nat)
    requires p <= s && |p| <= len && Unended(p)
    requires |p| == len || (p != [] && p[|p| - 1] == LF)
    ensures Line(s, len) == p
    decreases |p|
  {
    if p != [] && s[0] != LF {
      LineIs(s[1..], p[1..], len - 1);
      assert p == [p[0]] + p[1..];
    } else if p != [] {
      assert p[0] == LF;
      assert |p| == 1 && p == [LF];
    }
  }

  /** What an arrival puts into the buffer. */
  function Bytes(a: Arrival): seq<Byte>
  {
    if a.Data? then a.bytes else []
  }

  /** Everything the socket has delivered. */
  function DataOf(arrivals: seq<Arrival>): seq<Byte>
  {
    if arrivals == [] then []
    else DataOf(arrivals[..|arrivals| - 1]) + Bytes(arrivals[|arrivals| - 1])
  }

  lemma DataOfNext(arrivals: seq<Arrival>, i: nat, j: nat)
    requires i <= j < |arrivals|
    ensures DataOf(arrivals[i..j + 1]) == DataOf(arrivals[i..j]) + Bytes(arrivals[j])
  {
    assert arrivals[i..j + 1][..j - i] == arrivals[i..j];
  }

  lemma NoData(arrivals: seq<Arrival>, at: nat)
    requires at <= |arrivals|
    ensures DataOf(arrivals[at..at]) == []
  {
  }

  lemma {:induction false} DataOfConcat(arrivals: seq<Arrival>, i: nat, j: nat)
    requires i <= j <= |arrivals|
    ensures DataOf(arrivals[..j]) == DataOf(arrivals[..i]) + DataOf(arrivals[i..j])
    decreases j
  {
    hide DataOf, Bytes;
    if i == j {
      NoData(arrivals, j);
    } else {
      DataOfConcat(arrivals, i, j - 1);
      DataOfNext(arrivals, i, j - 1);
      DataOfNext(arrivals, 0, j - 1);
    }
  }

  /** The last `level` bytes of the buffer. */
  function Unread(buffer: seq<Byte>, level: int): (s: seq<Byte>)
    requires level <= |buffer|
    ensures |s| == if level <= 0 then 0 else level
  {
    if level <= 0 then [] else buffer[|buffer| - level..]
  }

  lemma UnreadSplit(buffer: seq<Byte>, level: int, i: nat)
    requires i <= level <= |buffer|
    ensures Unread(buffer, level)[..i] == buffer[|buffer| - level..|buffer| - level + i]
    ensures Unread(buffer, level)[..i] + Unread(buffer, level - i) == Unread(buffer, level)
  {
  }

  /** How much one call has seen: what it started with, which arrivals it fetched, what it copied out and what
      it left in the buffer. */
  datatype Account = Account(pending: nat, start: nat, next: nat, copied: nat, level: int)

  /** All arrivals so far were data, none was fetched without need, and no byte is lost or doubled. */
  ghost predicate Underway(arrivals: seq<Arrival>, len: nat, a: Account)
  {
    && a.start <= a.next <= |arrivals| && a.copied <= len && a.level >= 0
    && (forall k :: a.start <= k < a.next ==> arrivals[k].Data?)
    && a.copied + a.level == a.pending + |DataOf(arrivals[a.start..a.next])|
    && (a.next > a.start ==> a.pending + |DataOf(arrivals[a.start..a.next - 1])| < len)
  }

  /** How a call ends: with everything asked for; or, the buffer empty and everything that came handed out, at
      the end of the arrivals, at a timeout (what there is counts), or at an error (-1). */
  ghost predicate Ended(arrivals: seq<Arrival>, len: nat, a: Account, rc: int)
  {
    || (Underway(arrivals, len, a) && a.copied == len == rc)
    || (Underway(arrivals, len, a) && a.copied < len && a.level == 0 && a.next == |arrivals| && rc == a.copied)
    || (&& a.start < a.next <= |arrivals| && a.copied < len && a.level <= 0
        && Underway(arrivals, len, a.(next := a.next - 1, level := 0))
        && match arrivals[a.next - 1]
           case Timeout => rc == a.copied && a.level == 0
           case Closed => rc == -1 && a.level == 0
           case Failure => rc == -1 && a.level == -1
           case Data(_) => false)
  }

  lemma Begins(arrivals: seq<Arrival>, len: nat, a: Account)
    requires a.start == a.next <= |arrivals| && a.copied == 0 && a.level == a.pending
    ensures Underway(arrivals, len, a)
  {
    NoData(arrivals, a.start);
  }

  lemma Continues(arrivals: seq<Arrival>, len: nat, a: Account, b: Account)
    requires Underway(arrivals, len, a) && a.level == 0 && a.copied < len && a.next < |arrivals|
    requires arrivals[a.next].Data? && b == a.(next := a.next + 1, level := |arrivals[a.next].bytes|)
    ensures Underway(arrivals, len, b)
  {
    hide DataOf;
    DataOfNext(arrivals, a.start, a.next);
  }

  lemma Copied(arrivals: seq<Arrival>, len: nat, a: Account, copied: nat, level: int)
    requires Underway(arrivals, len, a) && copied <= len && level >= 0 && copied + level == a.copied + a.level
    ensures Underway(arrivals, len, a.(copied := copied, level := level))
  {
  }

  lemma Ends(arrivals: seq<Arrival>, len: nat, a: Account, b: Account, rc: int)
    requires Underway(arrivals, len, a)
    requires
      || (b == a && rc == a.copied && (a.copied == len || (a.copied < len && a.level == 0 && a.next == |arrivals|)))
      || (&& a.copied < len && a.level == 0 && a.next < |arrivals| && b == a.(next := a.next + 1, level := b.level)
          && match arrivals[a.next]
             case Timeout => rc == a.copied && b.level == 0
             case Closed => rc == -1 && b.level == 0
             case Failure => rc == -1 && b.level == -1
             case Data(_) => false)
    ensures Ended(arrivals, len, b, rc)
  {
    hide DataOf;
    if b != a {
      assert b.(next := b.next - 1, level := 0) == a;
    }
  }

  /** What the end of a call means for its caller. */
  lemma EndedMeans(arrivals: seq<Arrival>, len: nat, a: Account, rc: int)
    requires Ended(arrivals, len, a, rc)
    ensures a.start <= a.next <= |arrivals| && (rc == a.copied || rc == -1)
    ensures rc == -1 ==> a.copied < len
    ensures rc >= 0 ==> a.level >= 0
  {
  }

  lemma MovedToEnd(buffer: seq<Byte>, bytes: seq<Byte>)
    requires 1 <= |bytes| <= |buffer|
    ensures Unread(Overwrite(buffer, |buffer| - |bytes|, bytes), |bytes|) == bytes
  {
  }

  lemma NothingUnread(buffer: seq<Byte>, level: int)
    requires level <= 0
    ensures Unread(buffer, level) == []
  {
  }

  class Connection {
    const buffer: array<Byte>
    var level: int
    const arrivals: seq<Arrival>
    var next: nat
    /** Everything copied out to callers. */
    ghost var handed: seq<Byte>

    /** The bytes handed out and the bytes still in the buffer are the bytes the socket has delivered. */
    ghost predicate Valid()
      reads this, buffer
    {
      && buffer.Length == IO_BUFFER && -1 <= level <= IO_BUFFER && next <= |arrivals| && Possible(arrivals)
      && handed + Pending() == DataOf(arrivals[..next])
    }

    /** The bytes still in the buffer: the last `level` ones. */
    ghost function Pending(): seq<Byte>
      reads this, buffer
      requires buffer.Length == IO_BUFFER && -1 <= level <= IO_BUFFER
    {
      Unread(buffer[..], level)
    }

    constructor (arrivals: seq<Arrival>)
      requires Possible(arrivals)
      ensures Valid() && level == next == 0 && handed == [] && fresh(buffer) && this.arrivals == arrivals
    {
      buffer := new Byte[IO_BUFFER];
      level, next, handed := 0, 0, [];
      this.arrivals := arrivals;
    }

    /** _read: copies up to `len` bytes; `n` is how many, also when the result is -1. */
    method Read(dst: array<Byte>, len: nat) returns (rc: int, ghost n: nat)
      requires Valid() && level >= 0 && len <= dst.Length && dst != buffer
      modifies this`level, this`next, this`handed, buffer, dst
      ensures Valid() && n <= len
      ensures handed == old(handed) + dst[..n]
      ensures dst[n..] == Zeros(len - n) + old(dst[..])[len..]
      ensures Ended(arrivals, len, Account(|old(Pending())|, old(next), next, n, level), rc)
    {
      hide Unread, DataOf, Zeros, Underway, Ended;
      ghost var start, pending, was, before := next, |Pending()|, dst[..], handed;
      ghost var out: seq<Byte> := [];
      Clear(dst, len);
      var copied := 0;
      Begins(arrivals, len, Account(pending, start, next, 0, level));
      while copied < len
        invariant Valid() && level >= 0 && 0 <= copied <= len
        invariant copied < len || (copied == 0 && next == start)
        invariant dst[..copied] == out && handed == before + out
        invariant dst[copied..] == Zeros(len - copied) + was[len..]
        invariant Underway(arrivals, len, Account(pending, start, next, copied, level))
        decreases |arrivals| - next
      {
        ghost var taken, a := [], Account(pending, start, next, copied, level);
        copied, taken := TakePending(dst, copied, len, was[len..]);
        Regroup(before, out, taken);
        out := out + taken;
        Copied(arrivals, len, a, copied, level);
        a := Account(pending, start, next, copied, level);
        if copied >= len || next == |arrivals| {
          Ends(arrivals, len, a, a, copied);
          return copied, copied;
        }
        var got := Fetch();
        ghost var b := Account(pending, start, next, copied, level);
        if got <= 0 {
          rc := if got == 0 then copied else -1;
          Ends(arrivals, len, a, b, rc);
          return rc, copied;
        }
        Continues(arrivals, len, a, b);
      }
      ghost var a := Account(pending, start, next, copied, level);
      Ends(arrivals, len, a, a, 0);
      return 0, 0;
    }

    /** init_iobuffer, read() into the front of the buffer, then memmove to its end. */
    method Refill(bytes: seq<Byte>)
      requires buffer.Length == IO_BUFFER && 1 <= |bytes| <= IO_BUFFER
      modifies buffer
      ensures Unread(buffer[..], |bytes|) == bytes
    {
      hide Overwrite, Unread;
      Clear(buffer, IO_BUFFER);
      Copy(buffer, 0, bytes);
      assert buffer[..|bytes|] == bytes;
      MovedToEnd(buffer[..], bytes);
      Copy(buffer, IO_BUFFER - |bytes|, buffer[..|bytes|]);
    }

    /** Waiting for input and reading it: 0 for a timeout, -1 when the peer has closed or the read fails,
        else how many bytes now stand in the buffer. */
    method Fetch() returns (got: int)
      requires Valid() && level == 0 && next < |arrivals|
      modifies this`level, this`next, buffer
      ensures Valid() && next == old(next) + 1
      ensures match arrivals[old(next)]
              case Timeout => got == level == 0
              case Closed => got == -1 && level == 0
              case Failure => got == -1 && level == -1
              case Data(bytes) => got == level == |bytes| > 0 && Pending() == bytes
    {
      hide DataOf, Unread;
      DataOfNext(arrivals, 0, next);
      NothingUnread(buffer[..], level);
      next := next + 1;
      match arrivals[next - 1]
      case Timeout =>
        return 0;
      case Closed =>
        level := 0;
        return -1;
      case Failure =>
        level := -1;
        return -1;
      case Data(bytes) =>
        Refill(bytes);
        level := |bytes|;
        return level;
    }

    /** One turn's copying; afterwards either everything asked for is there or the buffer is empty. */
    method TakePending(dst: array<Byte>, copied: nat, len: nat, ghost behind: seq<Byte>)
      returns (copied': nat, ghost taken: seq<Byte>)
      requires Valid() && level >= 0 && copied < len <= dst.Length && dst != buffer
      requires dst[copied..] == Zeros(len - copied) + behind
      modifies this`level, this`handed, dst
      ensures Valid() && level >= 0 && copied <= copied' <= len && (copied' == len || level == 0)
      ensures copied' + level == copied + old(level)
      ensures handed == old(handed) + taken && dst[..copied'] == old(dst[..copied]) + taken
      ensures dst[copied'..] == Zeros(len - copied') + behind
    {
      hide Unread, DataOf, Possible, Overwrite, Zeros;
      var i := if level < len - copied then level else len - copied;
      ghost var pending := Pending();
      taken := pending[..i];
      UnreadSplit(buffer[..], level, i);
      Copy(dst, copied, buffer[IO_BUFFER - level..IO_BUFFER - level + i]);
      copied' := copied + i;
      FewerZeros(old(dst[..]), copied, i, len, behind);
      handed := handed + taken;
      level := level - i;
      Moved(old(handed), pending, taken, Pending());
    }

    /** `_read(fd, iobuf, &c, 1, timeout)` */
    method ReadByte() returns (got: int, c: Byte)
      requires Valid() && level >= 0
      modifies this`level, this`next, this`handed, buffer
      ensures Valid() && old(next) <= next
      ensures if got > 0 then level >= 0 && handed == old(handed) + [c] else handed == old(handed)
    {
      hide Unread, DataOf, Ended;
      var cell := new Byte[1];
      ghost var n;
      got, n := Read(cell, 1);
      EndedMeans(arrivals, 1, Account(|old(Pending())|, old(next), next, n, level), got);
      c := cell[0];
      assert cell[..1] == [c] && cell[..0] == [];
    }

    /** `*out++ = c` */
    method Put(dst: array<Byte>, i: nat, c: Byte)
      requires i < dst.Length
      modifies dst
      ensures dst[..i + 1] == old(dst[..i]) + [c]
    {
      dst[i] := c;
    }

    /** _readline: on success the next line of the stream, its first `len` bytes if it is longer; on failure
        the bytes taken, no line end among them.  `n` is how many there are. */
    method ReadLine(dst: array<Byte>, len: nat) returns (rc: int, ghost n: nat)
      requires Valid() && level >= 0 && len <= dst.Length && dst != buffer
      modifies this`level, this`next, this`handed, buffer, dst
      ensures Valid() && n <= len && (rc == n || rc == -1) && old(next) <= next
      ensures handed == old(handed) + dst[..n]
      ensures rc >= 0 ==>
                level >= 0 && dst[..rc] == Line(old(Pending()) + DataOf(arrivals[old(next)..next]), len)
      ensures rc == -1 ==> n < len && LF !in dst[..n]
    {
      hide Line, Possible, Unended, DataOf, Unread;
      UnendedSnoc([], 0);
      Clear(dst, len);
      var c: Byte := 0;
      var i := 0;
      ghost var line: seq<Byte> := [];
      while i < len && c != LF
        invariant Valid() && level >= 0 && 0 <= i <= len && old(next) <= next
        invariant i == |line| && dst[..i] == line && handed == old(handed) + line
        invariant Unended(line)
        invariant if i == 0 then c != LF else c == line[i - 1]
      {
        var got;
        got, c := ReadByte();
        if got <= 0 {
          UnendedWhole(line);
          return -1, i;
        }
        Put(dst, i, c);
        UnendedSnoc(line, c);
        line := line + [c];
        i := i + 1;
      }
      DataOfConcat(arrivals, old(next), next);
      LineRead(old(handed), old(Pending()), DataOf(arrivals[old(next)..next]), line, Pending(), len);
      return i, i;
    }
  }

  lemma UnendedWhole(line: seq<Byte>)
    requires Unended(line) && (line != [] ==> line[|line| - 1] != LF)
    ensures LF !in line
  {
  }

  lemma Moved(handed: seq<Byte>, pending: seq<Byte>, taken: seq<Byte>, rest: seq<Byte>)
    requires pending == taken + rest
    ensures (handed + taken) + rest == handed + pending
  {
    Regroup(handed, taken, rest);
  }

  lemma FewerZeros(was: seq<Byte>, copied: nat, i: nat, len: nat, behind: seq<Byte>)
    requires copied + i <= len <= |was| && was[copied..] == Zeros(len - copied) + behind
    ensures was[copied + i..] == Zeros(len - (copied + i)) + behind
  {
    assert was[copied + i..] == was[copied..][i..];
  }

  /** Bytes handed out since a state with `pending` unread are the line, when they end like one. */
  lemma LineRead(handed: seq<Byte>, pending: seq<Byte>, arrived: seq<Byte>, line: seq<Byte>, pending': seq<Byte>,
                 len: nat)
    requires (handed + pending) + arrived == (handed + line) + pending'
    requires |line| <= len && Unended(line)
    requires |line| == len || (line != [] && line[|line| - 1] == LF)
    ensures line == Line(pending + arrived, len)
  {
    hide Line, Unended;
    Regroup(handed, pending, arrived);
    Regroup(handed, line, pending');
    SameTail(handed, pending + arrived, line + pending');
    LineIs(pending + arrived, line, len);
  }

  lemma Regroup(a: seq<Byte>, b: seq<Byte>, c: seq<Byte>)
    ensures (a + b) + c == a + (b + c)
  {
  }

  lemma SameTail(a: seq<Byte>, b: seq<Byte>, c: seq<Byte>)
    requires a + b == a + c
    ensures b == c
  {
    assert b == (a + b)[|a|..] && c == (a + c)[|a|..];
  }
}
