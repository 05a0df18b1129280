/** The stream buffer over a transport: one array serves as get area or as put area. */
module DataObjectBuffer {
  import opened Wrappers
  import opened Bytes
  import opened Positioned

  const BUFFER_SIZE := 4096
  const EOF := -1
  const EXTERNAL_WRITE_ERROR := -1
  const SEEK_ERROR := -1

  class DataObjectBuf {
    const buf: array<byte>
    const transport: Transport
    // The put area: `putArea` is false while its pointers are null; pbase is 0 and epptr the size.
    var putArea: bool
    var pptr: nat
    // The get area; eback is 0.
    var getArea: bool
    var gptr: nat
    var egptr: nat

    /** The two areas are never live together, and null pointers stand at zero. */
    ghost predicate Valid()
      reads this
    {
      && buf.Length == BUFFER_SIZE
      && !(putArea && getArea)
      && pptr <= BUFFER_SIZE && (!putArea ==> pptr == 0)
      && gptr <= egptr <= BUFFER_SIZE && (!getArea ==> egptr == 0)
    }

    function Pending(): seq<byte>
      requires Valid()
      reads this, buf
    {
      buf[..pptr]
    }

    function Unread(): seq<byte>
      requires Valid()
      reads this, buf
    {
      buf[gptr..egptr]
    }

    /** The stream as an unbuffered writer would have it: the pending bytes written. */
    function Written(): Stream
      requires Valid()
      reads this, buf, transport
    {
      Put(transport.State(), Pending())
    }

    /** The unread bytes are the ones just before the transport's position. */
    ghost predicate Coherent()
      requires Valid()
      reads this, buf, transport
    {
      && |Unread()| <= transport.pos
      && StandsAt(transport.file, transport.pos - |Unread()|, Unread())
    }

    /** The stream as an unbuffered reader would have it: the unread bytes not yet read. */
    function Reading(): Stream
      requires Valid() && Coherent()
      reads this, buf, transport
    {
      Stream(transport.file, transport.pos - |Unread()|)
    }

    /** Where an unbuffered stream would be. */
    function Current(): Stream
      requires Valid() && Coherent()
      reads this, buf, transport
    {
      if getArea then Reading() else Written()
    }

    /** `open` on a fresh buffer, the transport already open. */
    constructor Open(t: Transport, input: bool, output: bool)
      requires t.isOpen
      ensures Valid() && transport == t && fresh(buf)
      ensures getArea == input && putArea == (output && !input)
      ensures Pending() == [] && Unread() == []
    {
      buf := new byte[BUFFER_SIZE];
      transport := t;
      pptr, gptr, egptr := 0, 0, 0;
      getArea := input;
      putArea := output && !input;
    }

    method FlushBuffer() returns (r: int)
      requires Valid()
      modifies this`pptr, transport
      ensures Valid() && transport.isOpen == old(transport.isOpen)
      ensures Written() == old(Written())
      ensures transport.failedOthers == old(transport.failedOthers)
      ensures transport.failedSends == old(transport.failedSends) + if r == 0 then 0 else 1
      ensures r == 0 ==> pptr == 0 && transport.State() == Written()
      ensures r != 0 ==>
                r == EXTERNAL_WRITE_ERROR && pptr == old(pptr) > 0 && transport.State() == old(transport.State())
    {
      var bytesToSend := pptr;
      PutNothing(transport.State());
      if bytesToSend == 0 {
        assert Pending() == [];
        return 0;
      }
      var bytesWritten := transport.Send(buf[..bytesToSend]);
      if bytesWritten < 0 {
        return EXTERNAL_WRITE_ERROR;
      }
      pptr := pptr - bytesWritten;
      assert Pending() == [];
      PutNothing(transport.State());
      return 0;
    }

    method Sync() returns (r: int)
      requires Valid()
      modifies this`pptr, transport
      ensures Valid() && transport.isOpen == old(transport.isOpen)
      ensures Written() == old(Written())
      ensures transport.failedOthers == old(transport.failedOthers)
      ensures transport.failedSends == old(transport.failedSends) + if r == 0 then 0 else 1
      ensures r == 0 ==> pptr == 0 && transport.State() == Written()
      ensures r != 0 ==>
                r == EXTERNAL_WRITE_ERROR && pptr == old(pptr) > 0 && transport.State() == old(transport.State())
    {
      if putArea {
        r := FlushBuffer();
      } else {
        assert Pending() == [];
        PutNothing(transport.State());
        r := 0;
      }
    }

    /** Switching to input sends what is pending; only when that fails are the bytes dropped. */
    method PrepareForInput() returns (dropped: bool)
      requires Valid()
      modifies this, transport
      ensures Valid() && getArea && transport.isOpen == old(transport.isOpen)
      ensures old(getArea) ==>
                !dropped && gptr == old(gptr) && egptr == old(egptr) && transport.State() == old(transport.State())
      ensures Unread() == old(Unread())
      ensures old(Coherent()) ==>
                && Coherent()
                && Reading() == if old(getArea) then old(Reading()) else
                                if dropped then old(transport.State()) else old(Written())
      ensures transport.State() == if dropped then old(transport.State()) else old(Written())
      ensures dropped ==> old(Pending()) != []
      ensures transport.failedSends == old(transport.failedSends) + if dropped then 1 else 0
      ensures transport.failedOthers == old(transport.failedOthers)
    {
      if getArea {
        assert Pending() == [];
        PutNothing(transport.State());
        return false;
      }
      var r := Sync();
      dropped := r != 0;
      putArea, pptr := false, 0;
      getArea, gptr, egptr := true, 0, 0;
    }

    /** Switching to output keeps the transport where it is, past bytes that were read ahead: the
        stream position is kept exactly when nothing was unread. */
    method PrepareForOutput()
      requires Valid()
      modifies this
      ensures Valid() && putArea
      ensures Written() == old(Written())
      ensures old(putArea) ==> pptr == old(pptr)
      ensures !old(putArea) ==> pptr == 0
      ensures old(Coherent()) ==> Coherent()
      ensures old(Coherent()) ==> (Written().pos == old(Reading().pos) + |old(Pending())| <==> old(Unread()) == [])
    {
      if putArea {
        return;
      }
      getArea, gptr, egptr := false, 0, 0;
      putArea, pptr := true, 0;
    }

    /** `overflow`. */
    method Overflow(c: Option<byte>) returns (r: int)
      requires Valid()
      modifies this, buf, transport
      ensures Valid() && putArea && transport.isOpen == old(transport.isOpen)
      ensures r == EOF ==> Written() == old(Written())
      ensures transport.Failures() == old(transport.Failures()) + if r == EOF then 1 else 0
      ensures r != EOF ==> match c case None => pptr == 0 && Written() == old(Written())
                                   case Some(b) => r == b && Written() == Put(old(Written()), [b])
      decreases 1
    {
      PrepareForOutput();
      var flushed := FlushBuffer();
      if flushed == EXTERNAL_WRITE_ERROR {
        return EOF;
      }
      match c {
        case Some(b) =>
          r := Sputc(b);
        case None =>
          r := 0;
      }
    }

    /** `sputc` of the standard stream buffer. */
    method Sputc(c: byte) returns (r: int)
      requires Valid()
      modifies this, buf, transport
      ensures Valid() && putArea && transport.isOpen == old(transport.isOpen)
      ensures r == EOF ==> Written() == old(Written())
      ensures transport.Failures() == old(transport.Failures()) + if r == EOF then 1 else 0
      ensures r != EOF ==> r == c && Written() == Put(old(Written()), [c])
      ensures old(putArea && pptr < BUFFER_SIZE) ==>
                pptr == old(pptr) + 1 && transport.State() == old(transport.State())
      decreases if putArea && pptr < BUFFER_SIZE then 0 else 2
    {
      if putArea && pptr < BUFFER_SIZE {
        ghost var pending := Pending();
        buf[pptr] := c;
        pptr := pptr + 1;
        assert Pending() == pending + [c];
        PutsAddUp(transport.State(), pending, [c]);
        return c;
      }
      r := Overflow(Some(c));
    }

    /** `xsputn`. */
    method Xsputn(data: seq<byte>) returns (n: int)
      requires Valid()
      modifies this, transport
      ensures Valid() && putArea && transport.isOpen == old(transport.isOpen)
      ensures n < 0 ==> Written() == old(Written())
      ensures transport.Failures() == old(transport.Failures()) + if n < 0 then 1 else 0
      ensures n >= 0 ==> n == |data| && Written() == Put(old(Written()), data) && pptr == 0
    {
      PrepareForOutput();
      var flushed := FlushBuffer();
      if flushed == EXTERNAL_WRITE_ERROR {
        return EXTERNAL_WRITE_ERROR;
      }
      n := transport.Send(data);
      assert Pending() == [];
      PutNothing(transport.State());
    }

    /** `seekoff`; `seekpos` is the same with direction `Beg`. The get area is left as it was, so a
        reader goes on from the new position exactly when nothing was unread. */
    method SeekOff(off: int, dir: SeekDir) returns (r: int)
      requires Valid()
      modifies this`pptr, transport
      ensures Valid() && transport.isOpen == old(transport.isOpen)
      ensures r == SEEK_ERROR ==> Written() == old(Written())
      ensures transport.Failures() == old(transport.Failures()) + if r == SEEK_ERROR then 1 else 0
      ensures r != SEEK_ERROR ==>
                && r == SeekTarget(old(Written()), off, dir) >= 0
                && Written() == old(Written()).(pos := r) && pptr == 0
      ensures r != SEEK_ERROR ==> (Coherent() && Reading().pos == r <==> old(Unread()) == [])
    {
      hide Put, Overwrite, StandsAt, SeekTarget;
      var s := Sync();
      if s != 0 {
        return SEEK_ERROR;
      }
      r := transport.SeekPos(off, dir);
      NothingStands(transport.file, transport.pos);
      assert Pending() == [];
      PutNothing(transport.State());
    }

    /** `close`. */
    method Close() returns (ok: bool)
      requires Valid()
      modifies this`pptr, transport
      ensures Valid()
      ensures transport.Failures() >= old(transport.Failures())
      ensures ok <==> old(transport.isOpen) && transport.Failures() == old(transport.Failures())
      ensures ok ==> !transport.isOpen && transport.State() == old(Written())
      ensures transport.State() == if old(transport.isOpen) && transport.failedSends == old(transport.failedSends)
                                   then old(Written()) else old(transport.State())
      ensures transport.isOpen <==> old(transport.isOpen) && transport.failedOthers > old(transport.failedOthers)
    {
      hide Put, Overwrite;
      if !transport.isOpen {
        return false;
      }
      var s := Sync();
      ok := s == 0;
      var closed := transport.Close();
      if !closed {
        ok := false;
      }
    }

    // ----- Input

    /** Filling the get area when it is used up. */
    method ReadAhead() returns (r: int)
      requires Valid() && getArea && gptr >= egptr
      modifies this, buf, transport
      ensures Valid() && getArea && transport.file == old(transport.file)
      ensures transport.failedSends == old(transport.failedSends)
      ensures transport.failedOthers >= old(transport.failedOthers)
      ensures r != EOF ==>
                && transport.failedOthers == old(transport.failedOthers) && Unread() != [] && r == Unread()[0]
                && old(transport.pos) < |transport.file| && r == transport.file[old(transport.pos)]
      ensures r == EOF ==> Unread() == []
      ensures r == EOF ==> transport.failedOthers > old(transport.failedOthers) || transport.pos >= |transport.file|
      ensures Coherent() && Reading() == old(transport.State())
    {
      hide Put, Overwrite, StandsAt;
      assert Unread() == [];
      var data, bytesRead := transport.Receive(BUFFER_SIZE);
      if bytesRead <= 0 {
        NothingStands(transport.file, transport.pos);
        return EOF;
      }
      FirstStands(transport.file, transport.pos - |data|, data);
      forall i | 0 <= i < |data| {
        buf[i] := data[i];
      }
      gptr, egptr := 0, bytesRead;
      assert Unread() == data;
      return buf[0];
    }

    /** `underflow`: the current byte, reading ahead when the get area is used up. */
    method Underflow() returns (r: int, dropped: bool)
      requires Valid()
      modifies this, buf, transport
      ensures Valid() && getArea
      ensures old(getArea) && old(Unread()) != [] ==> r == old(Unread()[0]) && Unread() == old(Unread())
      ensures old(Coherent()) ==>
                && Coherent()
                && Reading() == (if old(getArea) then old(Reading()) else
                                 if dropped then old(transport.State()) else old(Written()))
                && (r != EOF ==> Reading().pos < |Reading().file| && r == Reading().file[Reading().pos])
                && (r == EOF ==>
                      || transport.failedOthers > old(transport.failedOthers)
                      || Reading().pos >= |Reading().file|)
      ensures dropped ==> old(Pending()) != []
      ensures transport.failedSends == old(transport.failedSends) + if dropped then 1 else 0
      ensures transport.failedOthers >= old(transport.failedOthers)
      ensures r != EOF ==> transport.failedOthers == old(transport.failedOthers) && Unread() != [] && r == Unread()[0]
      ensures r == EOF ==> Unread() == []
    {
      hide DataObjectBuf.Coherent, DataObjectBuf.Reading, DataObjectBuf.Written, DataObjectBuf.Pending;
      dropped := PrepareForInput();
      NothingIsUnread(this);
      if gptr < egptr {
        assert Unread()[0] == buf[gptr];
        CurrentByte(this);
        return buf[gptr], dropped;
      }
      r := ReadAhead();
      NothingIsUnread(this);
      return r, dropped;
    }

    /** `sbumpc`: the same, passing over the byte. */
    method Sbumpc() returns (r: int, dropped: bool)
      requires Valid() && Coherent()
      modifies this, buf, transport
      ensures Valid() && Coherent() && getArea
      ensures var was := if old(getArea) then old(Reading()) else
                         if dropped then old(transport.State()) else old(Written());
              if r == EOF then Reading() == was else
              was.pos < |was.file| && r == was.file[was.pos] && Reading() == was.(pos := was.pos + 1)
      ensures dropped ==> old(Pending()) != []
      ensures transport.failedSends == old(transport.failedSends) + if dropped then 1 else 0
      ensures transport.failedOthers >= old(transport.failedOthers)
      ensures r != EOF ==> transport.failedOthers == old(transport.failedOthers)
      ensures r == EOF ==> transport.failedOthers > old(transport.failedOthers) || Reading().pos >= |Reading().file|
    {
      hide Put, Overwrite, StandsAt;
      r, dropped := Underflow();
      if r != EOF {
        ghost var unread := Unread();
        RestStands(transport.file, transport.pos - |unread|, unread);
        gptr := gptr + 1;
        assert Unread() == unread[1..];
      }
    }

    /** Taking all that is unread. */
    method TakeUnread() returns (out: seq<byte>)
      requires Valid() && Coherent() && getArea
      modifies this`gptr
      ensures Valid() && Coherent() && Unread() == [] && out == old(Unread())
      ensures Reading() == transport.State() && Reading().file == old(Reading()).file
      ensures Reading().pos == old(Reading()).pos + |out|
      ensures StandsAt(transport.file, old(Reading()).pos, out)
    {
      hide StandsAt;
      var bytesToCopy := egptr - gptr;
      out := buf[gptr..egptr];
      gptr := gptr + bytesToCopy;
      assert Unread() == [];
      NothingStands(transport.file, transport.pos);
    }

    /** `xsgetn`: the bytes it places are the next ones of the stream, but the count it returns
        leaves out those it took from the get area. It takes all of these, so it places more than
        was asked for exactly when more than that were unread. */
    method Xsgetn(size: nat) returns (out: seq<byte>, n: int, dropped: bool)
      requires Valid() && Coherent()
      modifies this, transport
      ensures Valid() && Coherent() && getArea && Unread() == []
      ensures var was := if old(getArea) then old(Reading()) else
                         if dropped then old(transport.State()) else old(Written());
              && was.pos + |out| == Reading().pos && Reading().file == was.file
              && StandsAt(was.file, was.pos, out)
      ensures |out| <= size <==> |old(Unread())| <= size
      ensures old(Unread()) <= out
      ensures n >= 0 ==> |out| <= size && n == |out| - |old(Unread())|
      ensures dropped ==> old(Pending()) != []
      ensures transport.failedSends == old(transport.failedSends) + if dropped then 1 else 0
      ensures transport.failedOthers == old(transport.failedOthers) + if n < 0 then 1 else 0
      ensures n == 0 ==> |out| == size || Reading().pos >= |Reading().file|
    {
      hide Put, Overwrite, StandsAt;
      hide DataObjectBuf.Coherent, DataObjectBuf.Reading, DataObjectBuf.Written, DataObjectBuf.Pending,
        DataObjectBuf.Unread;
      dropped := PrepareForInput();
      out := TakeUnread();
      ghost var unread := out;
      var data;
      data, n := transport.Receive(size - |out|);
      NothingIsUnread(this);
      ReadsAddUp(transport.file, transport.pos - |data| - |out|, out, data);
      out := out + data;
      assert unread <= out;
    }
  }

  lemma CurrentByte(b: DataObjectBuf)
    requires b.Valid() && b.Unread() != []
    ensures b.Coherent() ==>
              var s := b.Reading();
              s.file == b.transport.file && s.pos < |s.file| && b.Unread()[0] == s.file[s.pos]
  {
    if b.Coherent() {
      FirstStands(b.transport.file, b.transport.pos - |b.Unread()|, b.Unread());
    }
  }

  lemma NothingIsUnread(b: DataObjectBuf)
    requires b.Valid()
    ensures b.Unread() == [] <==> b.gptr >= b.egptr
    ensures b.Unread() == [] ==> b.Coherent() && b.Reading() == b.transport.State()
  {
  }

  lemma FirstStands(f: seq<byte>, p: nat, d: seq<byte>)
    requires StandsAt(f, p, d) && d != []
    ensures p < |f| && d[0] == f[p]
  {
  }

  lemma NothingStands(f: seq<byte>, p: nat)
    ensures StandsAt(f, p, [])
  {
  }

  // ----- Any sequence of writes

  lemma RunSnoc(s: Stream, ops: seq<Op>, accepted: seq<bool>, op: Op, ok: bool)
    requires |ops| == |accepted|
    ensures UnbufferedRun(s, ops + [op], accepted + [ok]) == Unbuffered(UnbufferedRun(s, ops, accepted), op, ok)
  {
    assert (ops + [op])[..|ops|] == ops && (accepted + [ok])[..|ops|] == accepted;
  }

  lemma RunOfNothing(s: Stream)
    ensures UnbufferedRun(s, [], []) == s
  {
  }

  method Apply(b: DataObjectBuf, op: Op) returns (ok: bool)
    requires b.Valid()
    modifies b, b.buf, b.transport
    ensures b.Valid() && b.transport.isOpen == old(b.transport.isOpen)
    ensures b.Written() == Unbuffered(old(b.Written()), op, ok)
    ensures b.transport.Failures() == old(b.transport.Failures()) + if ok then 0 else 1
  {
    hide Put;
    match op {
      case PutChar(c) =>
        var r := b.Sputc(c);
        ok := r != EOF;
      case PutMany(data) =>
        var n := b.Xsputn(data);
        ok := n >= 0;
      case Flush =>
        var r := b.Sync();
        ok := r == 0;
      case Seek(off, dir) =>
        var r := b.SeekOff(off, dir);
        ok := r != SEEK_ERROR;
    }
  }

  /** Driving the buffer through any operations leaves, with the pending bytes written, what an
      unbuffered writer accepting the same operations leaves; an operation is refused only when the
      transport fails. */
  method Drive(b: DataObjectBuf, ops: seq<Op>) returns (accepted: seq<bool>)
    requires b.Valid()
    modifies b, b.buf, b.transport
    ensures b.Valid() && b.transport.isOpen == old(b.transport.isOpen)
    ensures |accepted| == |ops| && b.Written() == UnbufferedRun(old(b.Written()), ops, accepted)
    ensures b.transport.Failures() == old(b.transport.Failures()) + Refused(accepted)
  {
    hide UnbufferedRun, Unbuffered, Put;
    NoneRefused([]);
    RunOfNothing(b.Written());
    accepted := [];
    for i := 0 to |ops|
      invariant b.Valid() && |accepted| == i && b.transport.isOpen == old(b.transport.isOpen)
      invariant b.Written() == UnbufferedRun(old(b.Written()), ops[..i], accepted)
      invariant b.transport.Failures() == old(b.transport.Failures()) + Refused(accepted)
    {
      var ok := Apply(b, ops[i]);
      RunSnoc(old(b.Written()), ops[..i], accepted, ops[i], ok);
      assert ops[..i + 1] == ops[..i] + [ops[i]];
      RefusedSnoc(accepted, ok);
      accepted := accepted + [ok];
    }
    assert ops[..|ops|] == ops;
  }

  /** Open for output, write, close: a successful close leaves on the transport exactly what the
      unbuffered writer would have left. */
  method WriteAndClose(t: Transport, ops: seq<Op>) returns (accepted: seq<bool>, ok: bool)
    requires t.isOpen
    modifies t
    ensures |accepted| == |ops|
    ensures ok ==> !t.isOpen && t.State() == UnbufferedRun(old(t.State()), ops, accepted)
    ensures t.Failures() == old(t.Failures()) ==> ok && forall i :: 0 <= i < |ops| ==> accepted[i]
  {
    var b := new DataObjectBuf.Open(t, false, true);
    PutNothing(t.State());
    accepted := Drive(b, ops);
    NoneRefused(accepted);
    ok := b.Close();
  }

  /** Read single bytes until the stream gives no more. */
  method ReadBytes(b: DataObjectBuf, limit: nat) returns (delivered: seq<byte>)
    requires b.Valid() && b.Coherent() && b.getArea
    modifies b, b.buf, b.transport
    ensures b.Valid() && b.Coherent() && b.getArea && |delivered| <= limit
    ensures b.Reading() == old(b.Reading()).(pos := old(b.Reading().pos) + |delivered|)
    ensures delivered != [] ==> b.Reading().pos <= |b.transport.file|
    ensures b.transport.failedOthers >= old(b.transport.failedOthers)
    ensures |delivered| < limit ==>
              || b.transport.failedOthers > old(b.transport.failedOthers)
              || b.Reading().pos >= |b.transport.file|
    ensures forall i :: 0 <= i < |delivered| ==> delivered[i] == old(b.Reading()).file[old(b.Reading()).pos + i]
  {
    delivered := [];
    ghost var start := b.Reading();
    while |delivered| < limit
      invariant b.Valid() && b.Coherent() && b.getArea && |delivered| <= limit
      invariant b.Reading() == start.(pos := start.pos + |delivered|)
      invariant delivered != [] ==> b.Reading().pos <= |start.file|
      invariant b.transport.failedOthers == old(b.transport.failedOthers)
      invariant forall i :: 0 <= i < |delivered| ==> delivered[i] == start.file[start.pos + i]
      decreases limit - |delivered|
    {
      var r, _ := b.Sbumpc();
      if r == EOF {
        return;
      }
      delivered := delivered + [r];
    }
  }

  // ----- Reads and writes mixed

  datatype MixedOp = Get | GetMany(size: nat) | Other(op: Op)

  /** What an operation came to: the bytes it placed, or whether it was accepted. */
  datatype Answer = Got(bytes: seq<byte>) | Took(accepted: bool)

  predicate Answers(op: MixedOp, a: Answer) {
    a.Took? <==> op.Other?
  }

  /** What one operation does to an unbuffered stream, given what it came to. */
  function Followed(s: Stream, op: MixedOp, a: Answer): Stream
    requires Answers(op, a)
  {
    match op
    case Get => s.(pos := s.pos + |a.bytes|)
    case GetMany(_) => s.(pos := s.pos + |a.bytes|)
    case Other(other) => Unbuffered(s, other, a.accepted)
  }

  predicate Delivers(s: Stream, a: Answer) {
    a.Got? ==> StandsAt(s.file, s.pos, a.bytes)
  }

  function MixedRun(s: Stream, ops: seq<MixedOp>, answers: seq<Answer>): Stream
    requires |ops| == |answers| && forall i :: 0 <= i < |ops| ==> Answers(ops[i], answers[i])
    decreases |ops|
  {
    if ops == [] then s else
    var n := |ops| - 1;
    Followed(MixedRun(s, ops[..n], answers[..n]), ops[n], answers[n])
  }

  /** Whether an operation leaves a reader with unread bytes where an unbuffered one would be: a seek
      to where these bytes stand again, so in particular one that goes nowhere. */
  predicate KeepsReader(op: Op, accepted: bool, s: Stream, unread: seq<byte>) {
    match op
    case Flush => true
    case Seek(off, dir) => !accepted || (dir.Cur? && s.pos + off >= 0 && StandsAt(s.file, s.pos + off, unread))
    case _ => false
  }

  /** The unread bytes lie between where a reader is and where a writer would be. */
  lemma WrittenIsAhead(b: DataObjectBuf)
    requires b.Valid()
    ensures b.getArea ==> b.Written() == b.transport.State()
    ensures !b.getArea ==> b.Unread() == [] && b.Coherent()
    ensures var w, u := b.Written(), b.Unread();
            && (b.Coherent() <==> |u| <= w.pos && StandsAt(w.file, w.pos - |u|, u))
            && (b.Coherent() ==> b.Current() == Stream(w.file, w.pos - |u|))
  {
    if b.getArea {
      assert b.Pending() == [];
      PutNothing(b.transport.State());
    }
  }

  lemma PutAdvances(s: Stream, d: seq<byte>)
    ensures Put(s, d).pos == s.pos + |d|
  {
  }

  method ApplyRead(b: DataObjectBuf, op: MixedOp) returns (a: Answer, follows: bool)
    requires b.Valid() && b.Coherent() && !op.Other?
    modifies b, b.buf, b.transport
    ensures b.Valid() && b.Coherent() && Answers(op, a)
    ensures follows <==> b.transport.failedSends == old(b.transport.failedSends)
    ensures follows ==> b.Current() == Followed(old(b.Current()), op, a) && Delivers(old(b.Current()), a)
    ensures !follows ==> b.Current().pos < Followed(old(b.Current()), op, a).pos
  {
    hide Put, Overwrite, StandsAt;
    WrittenIsAhead(b);
    PutAdvances(b.transport.State(), b.Pending());
    NothingStands(b.Current().file, b.Current().pos);
    ghost var was := b.Current();
    var dropped: bool;
    if op.Get? {
      var r;
      r, dropped := b.Sbumpc();
      a := Got(if r == EOF then [] else [r]);
      if r != EOF && !dropped {
        OneStands(was.file, was.pos, r);
      }
    } else {
      var out, n;
      out, n, dropped := b.Xsgetn(op.size);
      a := Got(out);
    }
    follows := !dropped;
  }

  lemma OneStands(f: seq<byte>, p: nat, c: byte)
    requires p < |f| && f[p] == c
    ensures StandsAt(f, p, [c])
  {
    assert f[p..p + 1] == [c];
  }

  lemma PutsMoveAlike(s: Stream, t: Stream, op: Op, ok: bool)
    requires op.PutChar? || op.PutMany?
    ensures Unbuffered(s, op, ok).pos - s.pos == Unbuffered(t, op, ok).pos - t.pos
  {
    PutAdvances(s, if op.PutChar? then [op.c] else op.data);
    PutAdvances(t, if op.PutChar? then [op.c] else op.data);
  }

  method ApplyPut(b: DataObjectBuf, op: Op) returns (ok: bool)
    requires b.Valid() && b.Coherent() && (op.PutChar? || op.PutMany?)
    modifies b, b.buf, b.transport
    ensures b.Valid() && b.putArea && b.Written() == Unbuffered(old(b.Written()), op, ok)
  {
    hide Put, Overwrite, StandsAt;
    if op.PutChar? {
      var r := b.Sputc(op.c);
      ok := r != EOF;
    } else {
      var n := b.Xsputn(op.data);
      ok := n >= 0;
    }
  }

  method ApplyMove(b: DataObjectBuf, op: Op) returns (ok: bool)
    requires b.Valid() && b.Coherent() && (op.Flush? || op.Seek?)
    modifies b, b.transport
    ensures b.Valid() && b.getArea == old(b.getArea) && b.Unread() == old(b.Unread())
    ensures b.Written() == Unbuffered(old(b.Written()), op, ok)
    ensures ok && op.Seek? ==> SeekTarget(old(b.Written()), op.off, op.dir) >= 0
  {
    hide Put, Overwrite, StandsAt;
    if op.Flush? {
      var r := b.Sync();
      ok := r == 0;
    } else {
      var r := b.SeekOff(op.off, op.dir);
      ok := r != SEEK_ERROR;
    }
  }

  /** Where a reader at `p` with unread bytes is after a flush or seek of its transport. */
  lemma MoveFollows(f: seq<byte>, p: nat, u: seq<byte>, op: Op, ok: bool)
    requires (op.Flush? || op.Seek?) && StandsAt(f, p, u)
    requires ok && op.Seek? ==> SeekTarget(Stream(f, p + |u|), op.off, op.dir) >= 0
    ensures var w := Unbuffered(Stream(f, p + |u|), op, ok);
            && w.file == f
            && (|u| <= w.pos && StandsAt(f, w.pos - |u|, u) &&
                Stream(f, w.pos - |u|) == Unbuffered(Stream(f, p), op, ok) <==>
                  u == [] || KeepsReader(op, ok, Stream(f, p), u))
  {
    hide StandsAt;
    if op.Seek? && ok && u == [] {
      NothingStands(f, SeekTarget(Stream(f, p), op.off, op.dir));
    }
  }

  method MoveOther(b: DataObjectBuf, op: Op) returns (ok: bool)
    requires b.Valid() && b.Coherent() && (op.Flush? || op.Seek?)
    modifies b, b.transport
    ensures b.Valid()
    ensures b.Coherent() && b.Current() == Unbuffered(old(b.Current()), op, ok) <==>
              old(b.Unread()) == [] || KeepsReader(op, ok, old(b.Current()), old(b.Unread()))
  {
    hide Put, Overwrite, StandsAt, Unbuffered, SeekTarget, KeepsReader;
    hide DataObjectBuf.Coherent, DataObjectBuf.Written, DataObjectBuf.Unread, DataObjectBuf.Current;
    WrittenIsAhead(b);
    ghost var reader, unread := b.Current(), b.Unread();
    NothingStands(reader.file, reader.pos);
    ok := ApplyMove(b, op);
    MoveFollows(reader.file, reader.pos, unread, op, ok);
    WrittenIsAhead(b);
  }

  method PutOther(b: DataObjectBuf, op: Op) returns (ok: bool)
    requires b.Valid() && b.Coherent() && (op.PutChar? || op.PutMany?)
    modifies b, b.buf, b.transport
    ensures b.Valid() && b.Coherent()
    ensures b.Current() == Unbuffered(old(b.Current()), op, ok) <==> old(b.Unread()) == []
  {
    hide Put, Overwrite, StandsAt, Unbuffered;
    WrittenIsAhead(b);
    ghost var reader, writer := b.Current(), b.Written();
    ok := ApplyPut(b, op);
    PutsMoveAlike(reader, writer, op, ok);
    WrittenIsAhead(b);
  }

  /** A put, flush or seek follows the unbuffered stream if nothing was unread, and otherwise exactly
      if it is one that keeps the reader. */
  method ApplyOther(b: DataObjectBuf, op: Op) returns (ok: bool)
    requires b.Valid() && b.Coherent()
    modifies b, b.buf, b.transport
    ensures b.Valid()
    ensures b.Coherent() && b.Current() == Unbuffered(old(b.Current()), op, ok) <==>
              old(b.Unread()) == [] || KeepsReader(op, ok, old(b.Current()), old(b.Unread()))
  {
    hide Put, Overwrite, StandsAt, Unbuffered;
    if op.PutChar? || op.PutMany? {
      ok := PutOther(b, op);
    } else {
      ok := MoveOther(b, op);
    }
  }

  predicate IsRelativeSeek(op: MixedOp) {
    op.Other? && op.op.Seek? && op.op.dir.Cur?
  }

  /** Any operation. It does not follow the unbuffered stream when a switch to input drops bytes it
      could not send, or a put or seek meets unread bytes; a relative seek is not followed further
      unless it goes nowhere, although it may lead to the same bytes again. */
  method ApplyMixed(b: DataObjectBuf, op: MixedOp) returns (a: Answer, follows: bool)
    requires b.Valid() && b.Coherent()
    modifies b, b.buf, b.transport
    ensures b.Valid() && Answers(op, a)
    ensures follows ==>
              b.Coherent() && b.Current() == Followed(old(b.Current()), op, a) && Delivers(old(b.Current()), a)
    ensures !follows ==>
              || IsRelativeSeek(op)
              || !(b.Coherent() && b.Current() == Followed(old(b.Current()), op, a))
  {
    hide Put, Overwrite, StandsAt, Unbuffered;
    if op.Other? {
      var unread := b.gptr < b.egptr;
      assert unread <==> b.Unread() != [];
      ghost var reader, bytes := b.Current(), b.Unread();
      WrittenIsAhead(b);
      var ok := ApplyOther(b, op.op);
      a := Took(ok);
      follows := !unread || op.op.Flush? || (op.op.Seek? && (!ok || (op.op.dir.Cur? && op.op.off == 0)));
    } else {
      a, follows := ApplyRead(b, op);
    }
  }

  lemma MixedRunNext(s: Stream, ops: seq<MixedOp>, answers: seq<Answer>, op: MixedOp, a: Answer)
    requires |ops| == |answers| && forall i :: 0 <= i < |ops| ==> Answers(ops[i], answers[i])
    requires Answers(op, a)
    ensures forall i :: 0 <= i < |ops + [op]| ==> Answers((ops + [op])[i], (answers + [a])[i])
    ensures MixedRun(s, ops + [op], answers + [a]) == Followed(MixedRun(s, ops, answers), op, a)
  {
    assert (ops + [op])[..|ops|] == ops && (answers + [a])[..|ops|] == answers;
  }

  ghost predicate AllDelivered(s: Stream, ops: seq<MixedOp>, answers: seq<Answer>)
    requires |ops| == |answers| && forall i :: 0 <= i < |ops| ==> Answers(ops[i], answers[i])
  {
    forall i :: 0 <= i < |ops| ==> Delivers(MixedRun(s, ops[..i], answers[..i]), answers[i])
  }

  lemma DeliveredNext(s: Stream, ops: seq<MixedOp>, answers: seq<Answer>, op: MixedOp, a: Answer)
    requires |ops| == |answers| && forall i :: 0 <= i < |ops| ==> Answers(ops[i], answers[i])
    requires Answers(op, a) && AllDelivered(s, ops, answers) && Delivers(MixedRun(s, ops, answers), a)
    ensures forall i :: 0 <= i < |ops + [op]| ==> Answers((ops + [op])[i], (answers + [a])[i])
    ensures AllDelivered(s, ops + [op], answers + [a])
  {
    hide MixedRun, Delivers;
    MixedRunNext(s, ops, answers, op, a);
    var more, given := ops + [op], answers + [a];
    forall i | 0 <= i < |more| ensures Delivers(MixedRun(s, more[..i], given[..i]), given[i]) {
      assert more[..i] == ops[..i] && given[..i] == answers[..i];
      assert ops[..|ops|] == ops && answers[..|ops|] == answers;
    }
  }

  /** Any operations in any order, up to the first that does not follow the unbuffered stream. As long
      as all do, the reader stands where an unbuffered one would, and every read was given the bytes
      that stood there. */
  method DriveMixed(b: DataObjectBuf, ops: seq<MixedOp>) returns (answers: seq<Answer>, follows: bool)
    requires b.Valid() && b.Coherent()
    modifies b, b.buf, b.transport
    ensures b.Valid() && |answers| <= |ops|
    ensures forall i :: 0 <= i < |answers| ==> Answers(ops[i], answers[i])
    ensures follows ==>
              && |answers| == |ops| && b.Coherent()
              && b.Current() == MixedRun(old(b.Current()), ops, answers)
              && AllDelivered(old(b.Current()), ops, answers)
    ensures !follows ==>
              var n := |answers| - 1;
              && n >= 0 && AllDelivered(old(b.Current()), ops[..n], answers[..n])
              && (|| IsRelativeSeek(ops[n])
                  || !(b.Coherent() && b.Current() == MixedRun(old(b.Current()), ops[..n + 1], answers)))
  {
    hide MixedRun, AllDelivered, Followed, Delivers;
    answers := [];
    ghost var start := b.Current();
    NothingRun(start);
    for i := 0 to |ops|
      invariant b.Valid() && b.Coherent() && |answers| == i
      invariant forall j :: 0 <= j < i ==> Answers(ops[j], answers[j])
      invariant b.Current() == MixedRun(start, ops[..i], answers) && AllDelivered(start, ops[..i], answers)
    {
      ghost var before := answers;
      var a;
      a, follows := ApplyMixed(b, ops[i]);
      answers := answers + [a];
      assert ops[..i + 1] == ops[..i] + [ops[i]] && answers[..i] == before;
      MixedRunNext(start, ops[..i], before, ops[i], a);
      if !follows {
        return;
      }
      DeliveredNext(start, ops[..i], before, ops[i], a);
    }
    assert ops[..|ops|] == ops;
    follows := true;
  }

  lemma NothingRun(s: Stream)
    ensures MixedRun(s, [], []) == s && AllDelivered(s, [], [])
  {
  }

  // ----- Streams on which the code does less

  /** On a file of two bytes, looking at the first and seeking to the second still shows the first. */
  method SeekAfterLooking(t: Transport) returns (first: int, moved: int, second: int)
    requires t.isOpen && t.State() == Stream([1, 2], 0)
    modifies t
    ensures first != EOF && moved != SEEK_ERROR ==> first == 1 && moved == 1 && second == 1
    ensures t.Failures() == old(t.Failures()) ==> first != EOF && moved != SEEK_ERROR
  {
    var dropped: bool;
    var b := new DataObjectBuf.Open(t, true, false);
    first, dropped := b.Underflow();
    moved := b.SeekOff(1, Beg);
    second := EOF;
    if first != EOF && moved != SEEK_ERROR {
      second, dropped := b.Underflow();
    }
  }

  /** Looking at the first byte and putting another leaves the first as it was. */
  method PutAfterLooking(t: Transport, c: byte) returns (first: int, put: int, b: DataObjectBuf)
    requires t.isOpen && t.State() == Stream([1, 2], 0)
    modifies t
    ensures fresh(b) && fresh(b.buf) && b.transport == t && b.Valid()
    ensures first != EOF && put != EOF ==>
              b.Written().pos >= 2 && b.Written().file != [] && b.Written().file[0] == 1
    ensures t.Failures() == old(t.Failures()) ==> first != EOF && put != EOF
  {
    var dropped: bool;
    b := new DataObjectBuf.Open(t, true, false);
    first, dropped := b.Underflow();
    assert b.Pending() == [];
    PutNothing(t.State());
    OverwriteAt(t.file, t.pos, [c], 0);
    put := b.Sputc(c);
  }

  /** Looking at the first byte and asking for both places both and counts at most one. */
  method GetAfterLooking(t: Transport) returns (first: int, out: seq<byte>, n: int)
    requires t.isOpen && t.State() == Stream([1, 2], 0)
    modifies t
    ensures first != EOF && n >= 0 ==> out != [] && n < |out| && out <= [1, 2]
    ensures t.Failures() == old(t.Failures()) ==> first != EOF && n >= 0
  {
    var dropped: bool;
    var b := new DataObjectBuf.Open(t, true, false);
    first, dropped := b.Underflow();
    out, n, dropped := b.Xsgetn(2);
  }
}
