/** Positioned files: what writing at a position does, without any buffer. */
module Positioned {
  import opened Bytes

  datatype Stream = Stream(file: seq<byte>, pos: nat)

  datatype SeekDir = Beg | Cur | End

  /** A file long enough to have position `p`. */
  function PadTo(f: seq<byte>, p: nat): seq<byte> {
    if |f| < p then f + seq(p - |f|, _ => 0) else f
  }

  /** The file after `d` is written at `p`; nothing written changes nothing. */
  function Overwrite(f: seq<byte>, p: nat, d: seq<byte>): seq<byte> {
    if d == [] then f else
    PadTo(f, p)[..p] + d + if p + |d| < |f| then f[p + |d|..] else []
  }

  /** Byte by byte: the written range holds the data, the rest is what it was, and a gap is zero. */
  lemma OverwriteAt(f: seq<byte>, p: nat, d: seq<byte>, i: nat)
    requires d != []
    ensures |Overwrite(f, p, d)| == if p + |d| < |f| then |f| else p + |d|
    ensures i < |Overwrite(f, p, d)| ==>
              Overwrite(f, p, d)[i] == if p <= i < p + |d| then d[i - p] else if i < |f| then f[i] else 0
  {
  }

  lemma OverwriteNothing(f: seq<byte>, p: nat)
    ensures Overwrite(f, p, []) == f
  {
  }

  /** Two writes in a row are one longer write. */
  lemma WritesAddUp(f: seq<byte>, p: nat, a: seq<byte>, b: seq<byte>)
    ensures Overwrite(Overwrite(f, p, a), p + |a|, b) == Overwrite(f, p, a + b)
  {
    hide Overwrite;
    var once := Overwrite(f, p, a);
    if a == [] {
      assert a + b == b;
      OverwriteNothing(f, p);
    } else if b == [] {
      assert a + b == a;
      OverwriteNothing(once, p + |a|);
    } else {
      OverwriteAt(f, p, a, 0);
      OverwriteAt(once, p + |a|, b, 0);
      OverwriteAt(f, p, a + b, 0);
      forall i: nat | i < |Overwrite(f, p, a + b)|
        ensures Overwrite(once, p + |a|, b)[i] == Overwrite(f, p, a + b)[i]
      {
        OverwriteAt(f, p, a, i);
        OverwriteAt(once, p + |a|, b, i);
        OverwriteAt(f, p, a + b, i);
      }
    }
  }

  function Put(s: Stream, d: seq<byte>): Stream {
    Stream(Overwrite(s.file, s.pos, d), s.pos + |d|)
  }

  lemma PutsAddUp(s: Stream, a: seq<byte>, b: seq<byte>)
    ensures Put(Put(s, a), b) == Put(s, a + b)
  {
    WritesAddUp(s.file, s.pos, a, b);
  }

  lemma PutNothing(s: Stream)
    ensures Put(s, []) == s
  {
  }

  function SeekTarget(s: Stream, off: int, dir: SeekDir): int {
    match dir
    case Beg => off
    case Cur => s.pos + off
    case End => |s.file| + off
  }

  /** One position reached from the beginning, from where the stream is, and from the end of the file. */
  lemma SeeksAgree(s: Stream, p: nat)
    ensures Unbuffered(s, Seek(p, Beg), true) == s.(pos := p)
    ensures Unbuffered(s, Seek(p - s.pos, Cur), true) == s.(pos := p)
    ensures Unbuffered(s, Seek(p - |s.file|, End), true) == s.(pos := p)
  {
  }

  /** What is put after a seek to the end is appended to the file. */
  lemma SeekToEndAppends(s: Stream, d: seq<byte>)
    ensures var z := Unbuffered(Unbuffered(s, Seek(0, End), true), PutMany(d), true);
            z.file == s.file + d && z.pos == |s.file| + |d|
  {
  }

  /** `d` is what stands at `p`, if it is anything. */
  predicate StandsAt(f: seq<byte>, p: nat, d: seq<byte>) {
    d != [] ==> p + |d| <= |f| && d == f[p..p + |d|]
  }

  lemma RestStands(f: seq<byte>, p: nat, d: seq<byte>)
    requires StandsAt(f, p, d) && d != []
    ensures StandsAt(f, p + 1, d[1..])
  {
  }

  lemma ReadsAddUp(f: seq<byte>, p: nat, a: seq<byte>, b: seq<byte>)
    requires StandsAt(f, p, a) && StandsAt(f, p + |a|, b)
    ensures StandsAt(f, p, a + b)
  {
  }

  // ----- An unbuffered writer

  datatype Op =
    | PutChar(c: byte)
    | PutMany(data: seq<byte>)
    | Flush
    | Seek(off: int, dir: SeekDir)

  /** What one operation does to an unbuffered stream, given whether it was accepted. */
  function Unbuffered(s: Stream, op: Op, accepted: bool): Stream {
    if !accepted then s else
    match op
    case PutChar(c) => Put(s, [c])
    case PutMany(data) => Put(s, data)
    case Flush => s
    case Seek(off, dir) => s.(pos := if SeekTarget(s, off, dir) < 0 then 0 else SeekTarget(s, off, dir))
  }

  function UnbufferedRun(s: Stream, ops: seq<Op>, accepted: seq<bool>): Stream
    requires |ops| == |accepted|
    decreases |ops|
  {
    if ops == [] then s else
    var n := |ops| - 1;
    Unbuffered(UnbufferedRun(s, ops[..n], accepted[..n]), ops[n], accepted[n])
  }

  function Refused(accepted: seq<bool>): nat {
    if accepted == [] then 0 else
    Refused(accepted[..|accepted| - 1]) + if accepted[|accepted| - 1] then 0 else 1
  }

  lemma RefusedSnoc(accepted: seq<bool>, ok: bool)
    ensures Refused(accepted + [ok]) == Refused(accepted) + if ok then 0 else 1
  {
    assert (accepted + [ok])[..|accepted|] == accepted;
  }

  lemma {:induction false} NoneRefused(accepted: seq<bool>)
    ensures Refused(accepted) == 0 <==> forall i :: 0 <= i < |accepted| ==> accepted[i]
  {
    if accepted != [] {
      NoneRefused(accepted[..|accepted| - 1]);
    }
  }

  // ----- The transport under the buffer

  /** A transport over one open data object: `send` writes all it is given or fails and writes
      nothing, `receive` gives some bytes from the position on unless at the end, and each may fail. */
  class Transport {
    var file: seq<byte>
    var pos: nat
    var isOpen: bool
    /** How often sending failed, and how often anything else did. */
    ghost var failedSends: nat
    ghost var failedOthers: nat

    function State(): Stream
      reads this
    {
      Stream(file, pos)
    }

    ghost function Failures(): nat
      reads this
    {
      failedSends + failedOthers
    }

    method Send(data: seq<byte>) returns (n: int)
      modifies this`file, this`pos, this`failedSends
      ensures n < 0 ==> State() == old(State()) && failedSends == old(failedSends) + 1
      ensures n >= 0 ==> n == |data| && State() == Put(old(State()), data) && failedSends == old(failedSends)
    {
      if * {
        failedSends := failedSends + 1;
        n := -1;
      } else {
        file, pos := Overwrite(file, pos, data), pos + |data|;
        n := |data|;
      }
    }

    method Receive(size: int) returns (data: seq<byte>, n: int)
      modifies this`pos, this`failedOthers
      ensures n < 0 ==> data == [] && pos == old(pos) && failedOthers == old(failedOthers) + 1
      ensures n >= 0 ==> n == |data| <= size && pos == old(pos) + n && failedOthers == old(failedOthers)
      ensures n == 0 ==> size == 0 || old(pos) >= |file|
      ensures size < 0 ==> n < 0
      ensures StandsAt(file, old(pos), data)
    {
      var refused := *;
      if size < 0 || refused {
        failedOthers := failedOthers + 1;
        data, n := [], -1;
      } else if size == 0 || pos >= |file| {
        data, n := [], 0;
      } else {
        var k :| 1 <= k <= size && pos + k <= |file|;
        data, n := file[pos..pos + k], k;
        pos := pos + k;
      }
    }

    method SeekPos(off: int, dir: SeekDir) returns (r: int)
      modifies this`pos, this`failedOthers
      ensures r < 0 ==> r == -1 && pos == old(pos) && failedOthers == old(failedOthers) + 1
      ensures r >= 0 ==> r == pos == SeekTarget(old(State()), off, dir) && failedOthers == old(failedOthers)
    {
      var target := SeekTarget(State(), off, dir);
      var refused := *;
      if target < 0 || refused {
        failedOthers := failedOthers + 1;
        r := -1;
      } else {
        pos := target;
        r := target;
      }
    }

    method Close() returns (ok: bool)
      modifies this`isOpen, this`failedOthers
      ensures ok ==> !isOpen && failedOthers == old(failedOthers)
      ensures !ok ==> isOpen == old(isOpen) && failedOthers == old(failedOthers) + 1
    {
      ok := *;
      if ok {
        isOpen := false;
      } else {
        failedOthers := failedOthers + 1;
      }
    }
  }
}
