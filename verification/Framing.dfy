/** Frames on a stream socket: a four-byte header, a body, and file descriptors that ride on the first byte.
    `bridge/src/bridge.c`, `src/ipc/uds.rs`. */
module Framing {
  import opened Errno
  import opened Bytes
  import opened Wire
  import opened Decoding

  const MAX_FDS := 64
  const MAX_BODY := 65535 - 4

  /** A byte in flight, with the open files passed along with it. */
  datatype Cell = Cell(b: byte, fds: seq<int>)

  function Cells(bytes: seq<byte>, fds: seq<int>): (s: seq<Cell>)
    ensures |s| == |bytes|
  {
    seq(|bytes|, i requires 0 <= i < |bytes| => Cell(bytes[i], if i == 0 then fds else []))
  }

  function BytesOf(s: seq<Cell>): (bytes: seq<byte>)
    ensures |bytes| == |s|
  {
    seq(|s|, i requires 0 <= i < |s| => s[i].b)
  }

  function FdsOf(s: seq<Cell>): seq<int> {
    if s == [] then [] else FdsOf(s[..|s| - 1]) + s[|s| - 1].fds
  }

  /** What the kernel fits into the control buffer. */
  function Truncated(fds: seq<int>): seq<int> {
    if |fds| <= MAX_FDS then fds else fds[..MAX_FDS]
  }

  /** Of the files on some bytes, those that were handed over: all of them, or fewer when a delivery was cut. */
  ghost predicate Part(fds: seq<int>, all: seq<int>, whole: bool) {
    multiset(fds) <= multiset(all) && (if whole then fds == all else |fds| < |all|)
  }

  datatype Frame = Frame(op: u16, body: seq<byte>, fds: seq<int>)

  predicate Sendable(f: Frame) {
    |f.body| <= MAX_BODY && |f.fds| <= MAX_FDS
  }

  function FrameBytes(op: u16, body: seq<byte>): seq<byte>
    requires |body| <= MAX_BODY
  {
    U16Bytes(op) + U16Bytes(|body| + 4) + body
  }

  /** What one frame puts on the stream. */
  function FrameCells(f: Frame): seq<Cell>
    requires Sendable(f)
  {
    Cells(FrameBytes(f.op, f.body), f.fds)
  }

  /** What the head of a stream holds. */
  datatype Next = Whole(f: Frame, rest: seq<Cell>) | BadLength | Cut

  function NextFrame(s: seq<Cell>): Next {
    if |s| < 4 then Cut
    else
      var op, total := U16Of(s[0].b, s[1].b), U16Of(s[2].b, s[3].b);
      if total < 4 then BadLength
      else if |s| < total then Cut
      else Whole(Frame(op, BytesOf(s[4..total]), FdsOf(s[..4])), s[total..])
  }

  // ---------------------------------------------------------------
  // One end of the socket

  class Endpoint {
    var inbox: seq<Cell>        // bytes on their way here
    var outbox: seq<Cell>       // bytes sent and not yet taken by the peer
    var open: multiset<int>     // files held open by this process
    var interrupts: nat         // interrupted calls still to come
    ghost var faults: nat       // system calls that failed so far, or met a full descriptor table
    ghost var cuts: nat         // receives so far that did not deliver all files of their bytes

    constructor ()
      ensures inbox == [] && outbox == [] && open == multiset{}
    {
      inbox, outbox, open, interrupts, faults, cuts := [], [], multiset{}, *, 0, 0;
    }

    /** Any prefix may be taken; the files travel with the first byte. */
    method SendMsg(bytes: seq<byte>, fds: seq<int>) returns (n: int)
      requires |bytes| > 0
      modifies this`outbox, this`interrupts, this`faults
      ensures n != 0 && n <= |bytes|
      ensures interrupts <= old(interrupts) && (n == -EINTR ==> interrupts < old(interrupts))
      ensures faults >= old(faults) && (faults > old(faults) <==> n < 0 && n != -EINTR)
      ensures n > 0 ==> outbox == old(outbox) + Cells(bytes, fds)[..n]
      ensures n < 0 ==> outbox == old(outbox)
    {
      if * {
        n :| n < 0 && n != -EINTR;
        faults := faults + 1;
      } else if interrupts > 0 {
        interrupts := interrupts - 1;
        n := -EINTR;
      } else {
        n :| 1 <= n <= |bytes|;
        outbox := outbox + Cells(bytes, fds)[..n];
      }
    }

    method Write(bytes: seq<byte>) returns (n: int)
      requires |bytes| > 0
      modifies this`outbox, this`interrupts, this`faults
      ensures n <= |bytes| && interrupts <= old(interrupts) && (n == -EINTR ==> interrupts < old(interrupts))
      ensures faults >= old(faults) && (faults > old(faults) <==> n <= 0 && n != -EINTR)
      ensures n > 0 ==> outbox == old(outbox) + Cells(bytes, [])[..n]
      ensures n <= 0 ==> outbox == old(outbox)
    {
      if * {
        faults := faults + 1;
        return 0;
      }
      n := SendMsg(bytes, []);
    }

    /** The files of the bytes taken are delivered in order, as far as the control buffer and the descriptor table
        have room; the rest is dropped, and `cut` says so. */
    method RecvMsg(most: nat) returns (n: int, bytes: seq<byte>, fds: seq<int>, cut: bool)
      requires most > 0
      modifies this`inbox, this`open, this`interrupts, this`faults, this`cuts
      ensures interrupts <= old(interrupts) && (n == -EINTR ==> interrupts < old(interrupts))
      ensures n == 0 ==> inbox == old(inbox) == []
      ensures n > 0 ==> n <= most && n <= |old(inbox)| && inbox == old(inbox)[n..]
      ensures n > 0 ==> var all := FdsOf(old(inbox)[..n]);
        && bytes == BytesOf(old(inbox)[..n]) && fds <= Truncated(all) && (cut <==> fds != all)
        && faults == old(faults) + (if fds != Truncated(all) then 1 else 0)
      ensures n <= 0 ==> inbox == old(inbox) && fds == [] && !cut
      ensures n <= 0 ==> faults == old(faults) + (if n < 0 && n != -EINTR then 1 else 0)
      ensures n >= 0 && !cut ==> faults == old(faults)
      ensures cuts == old(cuts) + if cut then 1 else 0
      ensures open == old(open) + multiset(fds)
    {
      bytes, fds, cut := [], [], false;
      if * {
        n :| n < 0 && n != -EINTR;
        faults := faults + 1;
      } else if interrupts > 0 {
        interrupts := interrupts - 1;
        n := -EINTR;
      } else if inbox == [] {
        n := 0;
      } else {
        assert 1 <= most && 1 <= |inbox|;
        n :| 1 <= n <= most && n <= |inbox|;
        var all := FdsOf(inbox[..n]);
        var fitting, room: nat := Truncated(all), *;
        fds := if room < |fitting| then fitting[..room] else fitting;
        cut := |fds| < |all|;
        faults := faults + if |fds| < |fitting| then 1 else 0;
        cuts := cuts + if cut then 1 else 0;
        bytes := BytesOf(inbox[..n]);
        inbox := inbox[n..];
        open := open + multiset(fds);
      }
    }

    /** The same, repeated while interrupted. */
    method RecvRetried(most: nat) returns (n: int, bytes: seq<byte>, fds: seq<int>, cut: bool)
      requires most > 0
      modifies this`inbox, this`open, this`interrupts, this`faults, this`cuts
      ensures interrupts <= old(interrupts) && n != -EINTR
      ensures n == 0 ==> inbox == old(inbox) == []
      ensures n > 0 ==> n <= most && n <= |old(inbox)| && inbox == old(inbox)[n..]
      ensures n > 0 ==> var all := FdsOf(old(inbox)[..n]);
        && bytes == BytesOf(old(inbox)[..n]) && fds <= Truncated(all) && (cut <==> fds != all)
        && faults == old(faults) + (if fds != Truncated(all) then 1 else 0)
      ensures n <= 0 ==> inbox == old(inbox) && fds == [] && !cut
      ensures n <= 0 ==> faults == old(faults) + (if n < 0 then 1 else 0)
      ensures n >= 0 && !cut ==> faults == old(faults)
      ensures cuts == old(cuts) + if cut then 1 else 0
      ensures open == old(open) + multiset(fds)
    {
      hide FdsOf, BytesOf, Truncated;
      while true
        invariant inbox == old(inbox) && open == old(open) && faults == old(faults) && cuts == old(cuts)
        invariant interrupts <= old(interrupts)
        decreases interrupts
      {
        n, bytes, fds, cut := RecvMsg(most);
        if n != -EINTR { return; }
      }
    }

    /** A plain read has nowhere to put files: the kernel drops them. */
    method Read(most: nat) returns (n: int, bytes: seq<byte>)
      requires most > 0
      modifies this`inbox, this`interrupts, this`faults
      ensures interrupts <= old(interrupts) && (n == -EINTR ==> interrupts < old(interrupts))
      ensures faults >= old(faults) && (faults > old(faults) <==> n < 0 && n != -EINTR)
      ensures n == 0 ==> inbox == old(inbox) == []
      ensures n > 0 ==> n <= most && n <= |old(inbox)| && inbox == old(inbox)[n..] && bytes == BytesOf(old(inbox)[..n])
      ensures n <= 0 ==> inbox == old(inbox)
    {
      bytes := [];
      if * {
        n :| n < 0 && n != -EINTR;
        faults := faults + 1;
      } else if interrupts > 0 {
        interrupts := interrupts - 1;
        n := -EINTR;
      } else if inbox == [] {
        n := 0;
      } else {
        assert 1 <= most && 1 <= |inbox|;
        n :| 1 <= n <= most && n <= |inbox|;
        bytes := BytesOf(inbox[..n]);
        inbox := inbox[n..];
      }
    }

    /** A descriptor can be closed only while it is open. */
    method Close(fd: int)
      requires fd in open
      modifies this`open
      ensures open == old(open) - multiset{fd}
    {
      open := open - multiset{fd};
    }

    method CloseAll(fds: seq<int>, ghost rest: multiset<int>)
      requires open == rest + multiset(fds)
      modifies this`open
      ensures open == rest
    {
      assert fds[0..] == fds;
      for i := 0 to |fds|
        invariant open == rest + multiset(fds[i..])
      {
        assert fds[i..] == [fds[i]] + fds[i + 1..];
        Close(fds[i]);
      }
    }

    // -------------------------------------------------------------
    // Sending

    /** The rest of a frame, by plain writes, none of which carries files. */
    method WriteAll(bytes: seq<byte>) returns (rc: int)
      modifies this`outbox, this`interrupts, this`faults
      ensures rc <= 0 && faults >= old(faults) && (rc == 0 <==> faults == old(faults))
      ensures rc == 0 ==> outbox == old(outbox) + Cells(bytes, [])
      ensures rc != 0 ==> old(outbox) <= outbox <= old(outbox) + Cells(bytes, [])
    {
      var done := 0;
      while done < |bytes|
        invariant 0 <= done <= |bytes|
        invariant outbox == old(outbox) + Cells(bytes, [])[..done] && faults == old(faults)
        decreases |bytes| - done + interrupts
      {
        var n := Write(bytes[done..]);
        if n < 0 {
          if n == -EINTR { continue; }
          return n;
        }
        if n == 0 { return -EPIPE; }
        assert Cells(bytes, [])[..done] + Cells(bytes[done..], [])[..n] == Cells(bytes, [])[..done + n];
        done := done + n;
      }
      rc := 0;
    }

    /** After a short first write: what is left of the header, then what is left of the body. */
    method FinishFrame(header: seq<byte>, body: seq<byte>, sent: nat) returns (rc: int)
      requires |header| == 4 && 0 < sent < 4 + |body|
      modifies this`outbox, this`interrupts, this`faults
      ensures rc <= 0 && faults >= old(faults) && (rc == 0 <==> faults == old(faults))
      ensures rc == 0 ==> outbox == old(outbox) + Cells((header + body)[sent..], [])
      ensures rc != 0 ==> old(outbox) <= outbox <= old(outbox) + Cells((header + body)[sent..], [])
    {
      hide Cells;
      var headLeft := if sent < 4 then 4 - sent else 0;
      var bodyDone := if sent < 4 then 0 else sent - 4;
      ghost var left := (header + body)[sent..];
      assert left[..headLeft] == header[4 - headLeft..] && left[headLeft..] == body[bodyDone..];
      CellsSplit(left, [], headLeft);
      if headLeft > 0 {
        rc := WriteAll(header[4 - headLeft..]);
        if rc < 0 { return; }
      }
      if |body| > bodyDone {
        rc := WriteAll(body[bodyDone..]);
        if rc < 0 { return; }
      }
      NoCells();
      return 0;
    }

    /** A frame is all on the stream after success; after an error the stream holds a prefix of it. */
    method SendFrame(op: u16, body: seq<byte>, fds: seq<int>) returns (rc: int)
      modifies this`outbox, this`interrupts, this`faults
      ensures |body| > MAX_BODY ==> rc == -EMSGSIZE && outbox == old(outbox)
      ensures |body| <= MAX_BODY && |fds| > MAX_FDS ==> rc == -E2BIG && outbox == old(outbox)
      ensures faults >= old(faults) && (rc == 0 <==> faults == old(faults) && Sendable(Frame(op, body, fds)))
      ensures rc == 0 ==> outbox == old(outbox) + FrameCells(Frame(op, body, fds))
      ensures Sendable(Frame(op, body, fds)) ==> old(outbox) <= outbox <= old(outbox) + FrameCells(Frame(op, body, fds))
    {
      hide Cells;
      if |body| > MAX_BODY { return -EMSGSIZE; }
      if |fds| > MAX_FDS { return -E2BIG; }
      var total := |body| + 4;
      var header := U16Bytes(op) + U16Bytes(total);
      while true
        invariant outbox == old(outbox) && faults == old(faults)
        decreases interrupts
      {
        var n := SendMsg(header + body, fds);
        if n < 0 {
          if n == -EINTR { continue; }
          return n;
        }
        if n == total {
          assert Cells(header + body, fds)[..n] == Cells(header + body, fds);
          return 0;
        }
        CellsSplit(header + body, fds, n);
        rc := FinishFrame(header, body, n);
        return;
      }
    }

    // -------------------------------------------------------------
    // Receiving

    /** Takes over newly arrived files; past the capacity everything held is closed. */
    method Harvest(held: seq<int>, got: seq<int>, cap: nat, ghost rest: multiset<int>) returns (ok: bool, fds: seq<int>)
      requires |held| <= cap && open == rest + multiset(held) + multiset(got)
      modifies this`open
      ensures ok == (|held| + |got| <= cap)
      ensures fds == (if ok then held + got else []) && open == rest + multiset(fds)
    {
      fds := held;
      for i := 0 to |got|
        invariant fds == held + got[..i] && |fds| <= cap
      {
        if |fds| >= cap {
          assert got == got[..i] + got[i..];
          CloseAll(got[i..], rest + multiset(fds));
          CloseAll(fds, rest);
          return false, [];
        }
        fds := fds + [got[i]];
      }
      assert got[..|got|] == got;
      ok := true;
    }

    /** The four header bytes and the files that come with them. Whatever ends the call, the files delivered with
        the bytes it consumed stay with the caller, unless there were too many of them. A cut delivery goes
        unnoticed: the files that were dropped are just not there. */
    method RecvHeader(cap: nat) returns (rc: int, header: seq<byte>, fds: seq<int>)
      modifies this`inbox, this`open, this`interrupts, this`faults, this`cuts
      ensures interrupts <= old(interrupts) && faults >= old(faults) && cuts >= old(cuts)
      ensures open == old(open) + multiset(fds) && |fds| <= cap
      ensures |inbox| <= |old(inbox)|
      ensures rc == 0 ==> |old(inbox)| >= 4 && inbox == old(inbox)[4..] && header == BytesOf(old(inbox)[..4])
      ensures rc == 0 || fds != [] ==> Part(fds, FdsOf(old(inbox)[..|old(inbox)| - |inbox|]), cuts == old(cuts))
      ensures rc != 0 && fds != [] ==> |old(inbox)| - |inbox| < 4
      ensures |HeaderFds(old(inbox))| <= cap ==>
        && Part(fds, FdsOf(old(inbox)[..|old(inbox)| - |inbox|]), cuts == old(cuts))
        && (rc != 0 ==> |old(inbox)| - |inbox| < 4)
      ensures rc == -ENOTCONN && faults == old(faults) ==> inbox == []
      ensures faults == old(faults) && Fitting(old(inbox)) ==>
        && cuts == old(cuts)
        && rc == if |HeaderFds(old(inbox))| > cap then -E2BIG else if |old(inbox)| < 4 then -ENOTCONN else 0
    {
      hide FdsOf, BytesOf, Part, Fitting, HeaderFds;
      ghost var s, c := inbox, cuts;
      header, fds := [], [];
      NoBytes(s);
      NothingTaken(s);
      while |header| < 4
        invariant |header| <= 4 && |header| <= |s| && inbox == s[|header|..]
        invariant header == BytesOf(s[..|header|])
        invariant Part(fds, FdsOf(s[..|header|]), cuts == c)
        invariant |fds| <= cap && open == old(open) + multiset(fds)
        invariant interrupts <= old(interrupts) && faults >= old(faults) && cuts >= c
        invariant faults == old(faults) && Fitting(s) ==> cuts == c
        decreases 4 - |header|
      {
        AllTaken(s, |header|);
        PartIsWhole(fds, FdsOf(s[..|header|]));
        ghost var done := |header|;
        var n, bytes;
        rc, n, bytes, fds := RecvPiece(|header|, fds, cap, s, c, old(open));
        if rc != 0 { return; }
        BytesOfSplit(s, done, n);
        header := header + bytes;
      }
      PartIsWhole(fds, FdsOf(s[..4]));
      AllTaken(s, 4);
      rc := 0;
    }

    /** One recvmsg for the rest of the header, repeated while interrupted, and the files that came with it. */
    method RecvPiece(done: nat, held: seq<int>, cap: nat, ghost s: seq<Cell>, ghost c: nat, ghost rest: multiset<int>)
      returns (rc: int, n: nat, bytes: seq<byte>, fds: seq<int>)
      requires done < 4 && done <= |s| && inbox == s[done..] && c <= cuts
      requires |held| <= cap && open == rest + multiset(held) && Part(held, FdsOf(s[..done]), cuts == c)
      modifies this`inbox, this`open, this`interrupts, this`faults, this`cuts
      ensures interrupts <= old(interrupts) && faults >= old(faults) && cuts >= old(cuts)
      ensures faults == old(faults) && Fitting(s) ==> cuts == old(cuts)
      ensures |fds| <= cap && open == rest + multiset(fds) && |inbox| <= |s|
      ensures rc == 0 ==> 0 < n && done + n <= 4 && done + n <= |s| && inbox == s[done + n..]
      ensures rc == 0 ==> bytes == BytesOf(s[done..][..n]) && Part(fds, FdsOf(s[..done + n]), cuts == c)
      ensures rc != 0 ==>
        (fds == held && inbox == s[done..] && cuts == old(cuts)) || (fds == [] && |HeaderFds(s)| > cap)
      ensures rc != 0 && faults == old(faults) ==>
        (rc == -ENOTCONN && done == |s| && fds == held && inbox == []) || (rc == -E2BIG && |HeaderFds(s)| > cap)
    {
      hide FdsOf, BytesOf, Part, Fitting, HeaderFds, Truncated;
      n, bytes, fds := 0, [], held;
      var r, got, cut;
      r, bytes, got, cut := RecvRetried(4 - done);
      if r < 0 { return r, n, bytes, fds; }
      if r == 0 { return -ENOTCONN, n, bytes, fds; }
      n := r;
      MoreTaken(s, done, n, held, got, old(cuts) == c);
      var ok;
      ok, fds := Harvest(held, got, cap, rest);
      return if ok then 0 else -E2BIG, n, bytes, fds;
    }

    method ReadAll(len: nat) returns (rc: int, bytes: seq<byte>)
      modifies this`inbox, this`interrupts, this`faults
      ensures faults >= old(faults) && rc <= 0
      ensures rc == 0 ==> faults == old(faults) && |old(inbox)| >= len
      ensures rc == 0 ==> bytes == BytesOf(old(inbox)[..len]) && inbox == old(inbox)[len..]
      ensures rc != 0 && faults == old(faults) ==> rc == -ENOTCONN && |old(inbox)| < len
      ensures |inbox| <= |old(inbox)|
    {
      bytes := [];
      while |bytes| < len
        invariant |bytes| <= len && |bytes| <= |old(inbox)| && inbox == old(inbox)[|bytes|..]
        invariant bytes == BytesOf(old(inbox)[..|bytes|]) && faults == old(faults)
        decreases len - |bytes| + interrupts
      {
        var n, got := Read(len - |bytes|);
        if n < 0 {
          if n == -EINTR { continue; }
          return n, bytes;
        }
        if n == 0 { return -ENOTCONN, bytes; }
        bytes := bytes + got;
      }
      rc := 0;
    }

    /** After the header: the length check, the allocation, the body. Every failure closes the files. */
    method RecvBody(h: Ledger, header: seq<byte>, fds: seq<int>, ghost rest: multiset<int>)
      returns (rc: int, ptr: int, body: seq<byte>, held: seq<int>)
      requires h.Valid() && |header| == 4 && open == rest + multiset(fds)
      modifies this`inbox, this`open, this`interrupts, this`faults, h
      ensures h.Valid() && h.live == old(h.live) + Block(ptr) && h.refusals >= old(h.refusals)
      ensures faults >= old(faults) && |inbox| <= |old(inbox)|
      ensures rc != 0 ==> ptr == 0 && held == [] && open == rest
      ensures rc == 0 ==> held == fds && open == rest + multiset(fds) && (body == [] <==> ptr == 0)
      ensures rc == 0 ==> BodyLength(header) <= |old(inbox)| && inbox == old(inbox)[BodyLength(header)..]
      ensures rc == 0 ==> body == BytesOf(old(inbox)[..BodyLength(header)])
      ensures rc == 0 ==> LengthOf(header) >= 4 && faults == old(faults) && h.refusals == old(h.refusals)
      ensures faults == old(faults) && h.refusals == old(h.refusals) ==>
                rc == if LengthOf(header) < 4 then WW_ERR_SHORT
                      else if |old(inbox)| < BodyLength(header) then -ENOTCONN
                      else 0
    {
      ptr, body, held := 0, [], [];
      var total: int := LengthOf(header);
      if total < 4 {
        CloseAll(fds, rest);
        return WW_ERR_SHORT, ptr, body, held;
      }
      var len := total - 4;
      if len > 0 {
        ptr := h.Malloc();
        if ptr == 0 {
          CloseAll(fds, rest);
          return WW_ERR_NOMEM, ptr, body, held;
        }
        rc, body := ReadAll(len);
        if rc < 0 {
          h.Free(ptr, old(h.live));
          CloseAll(fds, rest);
          ptr := 0;
          return;
        }
      }
      rc, held := 0, fds;
    }

    /** A receive that meets no fault and enough memory delivers exactly the frame at the head of the stream,
        however the bytes are cut up. A receive that fails holds no memory, and no file unless it broke off
        inside the header. A delivery that is cut does not make it fail: the frame then lacks files. */
    method RecvFrame(h: Ledger, cap: nat) returns (rc: int, op: u16, ptr: int, body: seq<byte>, fds: seq<int>)
      requires h.Valid()
      modifies this`inbox, this`open, this`interrupts, this`faults, this`cuts, h
      ensures h.Valid() && h.live == old(h.live) + Block(ptr) && h.refusals >= old(h.refusals)
      ensures faults >= old(faults) && cuts >= old(cuts)
      ensures faults == old(faults) && Fitting(old(inbox)) ==> cuts == old(cuts)
      ensures |fds| <= cap && open == old(open) + multiset(fds) && |inbox| <= |old(inbox)|
      ensures rc != 0 ==> ptr == 0
      ensures rc != 0 && fds != [] ==> |old(inbox)| - |inbox| < 4
      ensures rc != 0 && |HeaderFds(old(inbox))| <= cap ==>
                if |old(inbox)| - |inbox| < 4 then Part(fds, Unclosed(old(inbox), inbox), cuts == old(cuts))
                else fds == []
      ensures rc == 0 ==> |old(inbox)| - |inbox| >= 4 && h.refusals == old(h.refusals)
      ensures rc == 0 ==>
        (body == [] <==> ptr == 0) && Taken(Frame(op, body, fds), inbox, old(inbox), cuts == old(cuts))
      ensures faults == old(faults) && h.refusals == old(h.refusals) && Fitting(old(inbox)) ==>
                rc == ReceiveCode(old(inbox), cap) && (rc == -ENOTCONN && |old(inbox)| < 4 ==> inbox == [])
    {
      hide FdsOf, BytesOf, NextFrame, LengthOf, BodyLength, U16Of, Part, Fitting, HeaderFds, Taken, Unclosed;
      op, ptr, body := 0, 0, [];
      ghost var s := inbox;
      ShortStream(s);
      var header;
      rc, header, fds := RecvHeader(cap);
      BrokenOff(s, inbox);
      if rc != 0 { return; }
      op := U16Of(header[0], header[1]);
      HeadOfStream(s, header);
      rc, ptr, body, fds := RecvBody(h, header, fds, old(open));
      if rc == 0 { FrameTaken(s, Frame(op, body, fds), cuts == old(cuts)); }
    }

    // -------------------------------------------------------------
    // The daemon's side

    /** One sendmsg for the whole frame; a short write is an error, not retried. */
    method WriteFramed(op: u16, body: seq<byte>, fds: seq<int>) returns (r: Sending)
      modifies this`outbox, this`interrupts, this`faults
      ensures |fds| > MAX_FDS ==> r == TooManyFds && outbox == old(outbox)
      ensures |fds| <= MAX_FDS && |body| > MAX_BODY ==> r == FrameTooLarge(4 + |body|) && outbox == old(outbox)
      ensures faults >= old(faults) && (r.SendFault? <==> faults > old(faults))
      ensures Sendable(Frame(op, body, fds)) ==> r.Sent? || r.ShortWrite? || r.SendFault?
      ensures r == Sent ==> |body| <= MAX_BODY && |fds| <= MAX_FDS
      ensures r == Sent ==> outbox == old(outbox) + FrameCells(Frame(op, body, fds))
      ensures r.ShortWrite? ==> Sendable(Frame(op, body, fds)) && 0 < r.sent < r.total == 4 + |body|
      ensures r.ShortWrite? ==> outbox == old(outbox) + FrameCells(Frame(op, body, fds))[..r.sent]
      ensures r.SendFault? ==> outbox == old(outbox)
    {
      if |fds| > MAX_FDS { return TooManyFds; }
      var total := 4 + |body|;
      if total > 65535 { return FrameTooLarge(total); }
      var framed := FrameBytes(op, body);
      while true
        invariant outbox == old(outbox) && faults == old(faults)
        decreases interrupts
      {
        var n := SendMsg(framed, fds);
        if n == |framed| {
          assert Cells(framed, fds)[..n] == Cells(framed, fds);
          return Sent;
        }
        if n > 0 { return ShortWrite(n, |framed|); }
        if n == -EINTR { continue; }
        return SendFault(n);
      }
    }

    /** The four header bytes and all their files, or an error. Files read so far are closed when the vector that
        owns them is dropped. Those of a cut delivery are not: they are installed, but the error comes before they
        have an owner. They are `left` open; `start` is where in the header that delivery began. */
    method ReadHeader()
      returns (ok: bool, r: Receiving, header: seq<byte>, fds: seq<int>, ghost left: seq<int>, ghost start: nat)
      modifies this`inbox, this`open, this`interrupts, this`faults, this`cuts
      ensures faults >= old(faults) && cuts >= old(cuts) && |inbox| <= |old(inbox)|
      ensures ok ==> faults == old(faults) && cuts == old(cuts) && open == old(open) + multiset(fds)
      ensures ok ==> |old(inbox)| >= 4 && inbox == old(inbox)[4..]
      ensures ok ==> header == BytesOf(old(inbox)[..4]) && fds == FdsOf(old(inbox)[..4])
      ensures !ok ==> open == old(open) + multiset(left) && (r.PeerClosed? || r.ReceiveFault?)
      ensures !ok && r.PeerClosed? ==> inbox == []
      ensures !ok && r.ReceiveFault? && cuts == old(cuts) ==> faults > old(faults)
      ensures cuts == old(cuts) ==> left == []
      ensures cuts != old(cuts) ==>
        r == ReceiveFault(-ENOBUFS) && CutDelivery(old(inbox), start, |old(inbox)| - |inbox|, left)
      ensures cuts != old(cuts) && faults == old(faults) ==> |left| == MAX_FDS && !Fitting(old(inbox))
      ensures cuts == old(cuts) && faults == old(faults) ==>
        !Overfull(old(inbox)) && (ok || (r.PeerClosed? && |old(inbox)| < 4))
    {
      hide FdsOf, BytesOf, Truncated, Overfull, CutDelivery, Fitting;
      ghost var s := inbox;
      ok, r, header, fds, left, start := false, PeerClosed, [], [], [], 0;
      NoBytes(s);
      NoFds();
      while |header| < 4
        invariant |header| <= 4 && |header| <= |s| && inbox == s[|header|..]
        invariant header == BytesOf(s[..|header|]) && fds == FdsOf(s[..|header|])
        invariant open == old(open) + multiset(fds) && faults == old(faults) && cuts == old(cuts)
        invariant forall i | 0 <= i < |header| :: |s[i].fds| <= MAX_FDS
        decreases 4 - |header|
      {
        var n, bytes, got, cut := RecvRetried(4 - |header|);
        if n < 0 {
          CloseAll(fds, old(open));
          r := ReceiveFault(n);
          return;
        }
        if cut {
          left, start := got, |header|;
          CutAt(s, start, n, got);
          CloseAll(fds, old(open) + multiset(got));
          r := ReceiveFault(-ENOBUFS);
          return;
        }
        if n == 0 {
          CloseAll(fds, old(open));
          NotOverfull(s, |header|);
          return;
        }
        FdsOfSplit(s, |header|, n);
        CellsFit(s, |header|, n, got);
        BytesOfSplit(s, |header|, n);
        fds, header := fds + got, header + bytes;
      }
      NotOverfull(s, 4);
      ok := true;
    }

    /** A receive closes all its files on every error, but for those that a cut delivery of the header left. */
    method ReadFramed() returns (r: Receiving, ghost left: seq<int>, ghost start: nat)
      modifies this`inbox, this`open, this`interrupts, this`faults, this`cuts
      ensures faults >= old(faults) && cuts >= old(cuts) && |inbox| <= |old(inbox)|
      ensures r.Received? ==> open == old(open) + multiset(r.f.fds) && Delivered(r.f, inbox, old(inbox))
      ensures r.Received? ==> faults == old(faults) && cuts == old(cuts)
      ensures !r.Received? ==> open == old(open) + multiset(left)
      ensures r.PeerClosed? ==> inbox == []
      ensures r.ReceiveFault? && cuts == old(cuts) ==> faults > old(faults)
      ensures cuts == old(cuts) ==> left == []
      ensures cuts != old(cuts) ==>
        r == ReceiveFault(-ENOBUFS) && CutDelivery(old(inbox), start, |old(inbox)| - |inbox|, left)
      ensures cuts != old(cuts) && faults == old(faults) ==> |left| == MAX_FDS && !Fitting(old(inbox))
      ensures faults == old(faults) && Overfull(old(inbox)) ==> cuts != old(cuts)
      ensures faults == old(faults) && Fitting(old(inbox)) ==>
                match NextFrame(old(inbox))
                case Whole(f, rest) => r == Received(f) && inbox == rest
                case BadLength => r.BadFrameLen?
                case Cut => if |old(inbox)| < 4 then r.PeerClosed? else r.BodyCut?
    {
      hide FdsOf, BytesOf, NextFrame, LengthOf, U16Of, Overfull, CutDelivery, Fitting;
      ghost var s := inbox;
      ShortStream(s);
      var ok, header, fds;
      ok, r, header, fds, left, start := ReadHeader();
      if !ok { return; }
      HeadOfStream(s, header);
      var total := LengthOf(header);
      if total < 4 {
        CloseAll(fds, old(open));
        r := BadFrameLen(total);
        return;
      }
      var rc, body := ReadAll(total - 4);
      if rc != 0 {
        CloseAll(fds, old(open));
        r := if rc == -ENOTCONN then BodyCut else ReceiveFault(rc);
        return;
      }
      r := Received(Frame(U16Of(header[0], header[1]), body, fds));
    }
  }

  datatype Sending =
    | Sent
    | TooManyFds
    | FrameTooLarge(size: nat)
    | ShortWrite(sent: nat, total: nat)
    | SendFault(code: int)

  datatype Receiving = Received(f: Frame) | PeerClosed | BadFrameLen(total: int) | BodyCut | ReceiveFault(code: int)

  function LengthOf(header: seq<byte>): nat
    requires |header| == 4
  {
    U16Of(header[2], header[3])
  }

  function BodyLength(header: seq<byte>): nat
    requires |header| == 4
  {
    if LengthOf(header) < 4 then 0 else LengthOf(header) - 4
  }

  /** How many of the first four bytes a stream has. */
  function Head(s: seq<Cell>): nat {
    if |s| < 4 then |s| else 4
  }

  /** The files that ride on the first four bytes. */
  function HeaderFds(s: seq<Cell>): seq<int> {
    FdsOf(s[..Head(s)])
  }

  /** No more files ride on a header than the control buffer takes. */
  predicate Fitting(s: seq<Cell>) {
    |HeaderFds(s)| <= MAX_FDS
  }

  /** One header byte alone carries more. */
  ghost predicate Overfull(s: seq<Cell>) {
    exists i :: 0 <= i < Head(s) && |s[i].fds| > MAX_FDS
  }

  /** A receive of the header bytes from `start` on up to `end` delivered the first of their files, not all. */
  ghost predicate CutDelivery(s: seq<Cell>, start: nat, end: nat, fds: seq<int>) {
    start < end <= Head(s) && fds <= Truncated(FdsOf(s[start..end])) && fds != FdsOf(s[start..end])
  }

  /** The files of a header that was only partly consumed. */
  function Unclosed(before: seq<Cell>, after: seq<Cell>): seq<int>
    requires |after| <= |before|
  {
    var consumed := |before| - |after|;
    if consumed < 4 then FdsOf(before[..consumed]) else []
  }

  /** A frame taken off the head of a stream. */
  predicate Delivered(f: Frame, after: seq<Cell>, before: seq<Cell>) {
    NextFrame(before) == Whole(f, after)
  }

  /** The same, but for files that a cut delivery has dropped. */
  ghost predicate Taken(f: Frame, after: seq<Cell>, before: seq<Cell>, whole: bool) {
    && NextFrame(before).Whole?
    && NextFrame(before) == Whole(f.(fds := NextFrame(before).f.fds), after)
    && Part(f.fds, NextFrame(before).f.fds, whole)
  }

  function ReceiveCode(s: seq<Cell>, cap: nat): int
    requires Fitting(s)
  {
    if |HeaderFds(s)| > cap then -E2BIG
    else match NextFrame(s)
      case Whole(_, _) => 0
      case BadLength => WW_ERR_SHORT
      case Cut => -ENOTCONN
  }

  /** The head of a stream, in terms of its header bytes and of what follows them. */
  lemma HeadOfStream(s: seq<Cell>, header: seq<byte>)
    requires |s| >= 4 && header == BytesOf(s[..4])
    ensures var n := BodyLength(header);
      NextFrame(s) == if LengthOf(header) < 4 then BadLength
                      else if |s[4..]| < n then Cut
                      else Whole(Frame(U16Of(header[0], header[1]), BytesOf(s[4..][..n]), FdsOf(s[..4])), s[4..][n..])
  {
    hide FdsOf;
    var n := BodyLength(header);
    if n <= |s| - 4 {
      assert s[4..][..n] == s[4..4 + n] && s[4..][n..] == s[4 + n..];
    }
  }

  lemma FrameTaken(s: seq<Cell>, f: Frame, whole: bool)
    requires NextFrame(s).Whole? && f.op == NextFrame(s).f.op && f.body == NextFrame(s).f.body
    requires |s| >= 4 && Part(f.fds, FdsOf(s[..4]), whole)
    ensures Taken(f, NextFrame(s).rest, s, whole)
  {
    hide FdsOf, Part;
  }

  lemma BrokenOff(before: seq<Cell>, after: seq<Cell>)
    requires |after| <= |before|
    ensures |before| - |after| < 4 ==> Unclosed(before, after) == FdsOf(before[..|before| - |after|])
  {
  }

  lemma ShortStream(s: seq<Cell>)
    ensures |s| < 4 ==> NextFrame(s) == Cut
  {
  }

  lemma NoBytes(s: seq<Cell>)
    ensures BytesOf(s[..0]) == []
  {
  }

  lemma NoFds()
    ensures FdsOf([]) == []
  {
  }

  lemma FdsOfLast(s: seq<Cell>)
    requires s != []
    ensures FdsOf(s) == FdsOf(s[..|s| - 1]) + s[|s| - 1].fds
  {
  }

  lemma Regrouped(a: seq<int>, b: seq<int>, c: seq<int>)
    ensures a + b + c == a + (b + c)
  {
  }

  lemma {:induction false} FdsOfConcat(a: seq<Cell>, b: seq<Cell>)
    ensures FdsOf(a + b) == FdsOf(a) + FdsOf(b)
    decreases |b|
  {
    hide FdsOf;
    NoFds();
    if b == [] {
      assert a + b == a;
    } else {
      var init := b[..|b| - 1];
      FdsOfConcat(a, init);
      assert (a + b)[..|a + b| - 1] == a + init;
      FdsOfLast(a + b);
      FdsOfLast(b);
      Regrouped(FdsOf(a), FdsOf(init), b[|b| - 1].fds);
    }
  }

  lemma BytesOfSplit(s: seq<Cell>, done: nat, n: nat)
    requires done + n <= |s|
    ensures BytesOf(s[..done + n]) == BytesOf(s[..done]) + BytesOf(s[done..][..n])
    ensures s[done..][n..] == s[done + n..]
  {
  }

  lemma CellFds(s: seq<Cell>, i: nat)
    requires i < |s|
    ensures |s[i].fds| <= |FdsOf(s)|
  {
    hide FdsOf;
    assert s == s[..i] + s[i..] && s[i..] == [s[i]] + s[i..][1..];
    FdsOfConcat(s[..i], s[i..]);
    FdsOfConcat([s[i]], s[i..][1..]);
    FdsOfLast([s[i]]);
  }

  /** No cell of a delivery that was not cut carries too many files. */
  lemma CellsFit(s: seq<Cell>, done: nat, n: nat, got: seq<int>)
    requires done + n <= |s| && got <= Truncated(FdsOf(s[done..][..n])) && got == FdsOf(s[done..][..n])
    ensures forall i | done <= i < done + n :: |s[i].fds| <= MAX_FDS
  {
    forall i | done <= i < done + n ensures |s[i].fds| <= MAX_FDS {
      CellFds(s[done..][..n], i - done);
    }
  }

  lemma NotOverfull(s: seq<Cell>, n: nat)
    requires Head(s) <= n && n <= |s| && forall i | 0 <= i < n :: |s[i].fds| <= MAX_FDS
    ensures !Overfull(s)
  {
  }

  lemma CutAt(s: seq<Cell>, done: nat, n: nat, got: seq<int>)
    requires 0 < n && done + n <= Head(s)
    requires got <= Truncated(FdsOf(s[done..][..n])) && got != FdsOf(s[done..][..n])
    ensures CutDelivery(s, done, done + n, got)
    ensures got == Truncated(FdsOf(s[done..][..n])) ==> |got| == MAX_FDS && !Fitting(s)
  {
    assert s[done..][..n] == s[done..done + n];
    FdsOfSplit(s, done, n);
    hide FdsOf;
  }

  lemma AllTaken(s: seq<Cell>, n: nat)
    requires n <= |s|
    ensures n == 4 || (n < 4 && n == |s|) ==> HeaderFds(s) == FdsOf(s[..n])
  {
  }

  lemma PartIsWhole(fds: seq<int>, all: seq<int>)
    ensures Part(fds, all, true) ==> fds == all
  {
  }

  lemma NothingTaken(s: seq<Cell>)
    ensures Part([], FdsOf(s[..0]), true)
  {
  }

  /** Files taken over piece by piece are part of the files of all the bytes so far. */
  lemma MoreTaken(s: seq<Cell>, done: nat, n: nat, fds: seq<int>, got: seq<int>, whole: bool)
    requires done + n <= 4 && done + n <= |s| && got <= Truncated(FdsOf(s[done..][..n])) &&
      Part(fds, FdsOf(s[..done]), whole)
    ensures Part(fds + got, FdsOf(s[..done + n]), whole && got == FdsOf(s[done..][..n]))
    ensures |fds| + |got| <= |HeaderFds(s)|
    ensures Fitting(s) ==> Truncated(FdsOf(s[done..][..n])) == FdsOf(s[done..][..n])
    ensures got != FdsOf(s[done..][..n]) ==> |got| < |FdsOf(s[done..][..n])|
  {
    hide FdsOf;
    var all := FdsOf(s[done..][..n]);
    FdsOfSplit(s, done, n);
    assert all == got + all[|got|..];
  }

  /** Files collected piece by piece, none of the pieces being truncated when all of them fit. */
  lemma FdsOfSplit(s: seq<Cell>, done: nat, n: nat)
    requires done + n <= |s|
    ensures FdsOf(s[..done + n]) == FdsOf(s[..done]) + FdsOf(s[done..][..n])
    ensures done + n <= Head(s) && Fitting(s) ==> Truncated(FdsOf(s[done..][..n])) == FdsOf(s[done..][..n])
    ensures done + n <= Head(s) ==> |FdsOf(s[..done + n])| <= |HeaderFds(s)|
  {
    hide FdsOf;
    assert s[..done + n] == s[..done] + s[done..][..n];
    FdsOfConcat(s[..done], s[done..][..n]);
    if done + n <= Head(s) {
      assert s[..Head(s)] == s[..done + n] + s[done + n..Head(s)];
      FdsOfConcat(s[..done + n], s[done + n..Head(s)]);
    }
  }

  lemma NoCells()
    ensures Cells([], []) == []
  {
  }

  lemma CellsSplit(bytes: seq<byte>, fds: seq<int>, n: nat)
    requires n <= |bytes|
    ensures n > 0 ==> Cells(bytes, fds)[..n] + Cells(bytes[n..], []) == Cells(bytes, fds)
    ensures Cells(bytes, fds)[..n] == Cells(bytes[..n], fds)
    ensures fds == [] ==> Cells(bytes[..n], []) + Cells(bytes[n..], []) == Cells(bytes, [])
  {
  }

  /** The layout of a frame: opcode and total length, least significant byte first, then the body; all files ride on
      the first byte. A frame has at most 65535 bytes and 64 files. */
  lemma FrameLayout(f: Frame)
    ensures Sendable(f) <==> 4 + |f.body| <= 65535 && |f.fds| <= 64
    ensures Sendable(f) ==> var c := FrameCells(f); var total := 4 + |f.body|;
      && |c| == total && c[0].b == f.op % 256 && c[1].b == f.op / 256
      && c[2].b == total % 256 && c[3].b == total / 256
      && (forall i | 0 <= i < |f.body| :: c[4 + i].b == f.body[i])
      && c[0].fds == f.fds && forall i | 0 < i < |c| :: c[i].fds == []
  {
    if Sendable(f) {
      var b := FrameBytes(f.op, f.body);
      assert b[..4] == U16Bytes(f.op) + U16Bytes(|f.body| + 4) && b[4..] == f.body;
      assert forall i | 0 <= i < |f.body| :: b[4 + i] == b[4..][i];
    }
  }

  // ---------------------------------------------------------------
  // Whole streams

  function Stream(fs: seq<Frame>): seq<Cell>
    requires AllSendable(fs)
  {
    if fs == [] then [] else FrameCells(fs[0]) + Stream(fs[1..])
  }

  /** All complete frames at the head of a stream. */
  function Frames(s: seq<Cell>): seq<Frame>
    decreases |s|
  {
    match NextFrame(s)
    case Whole(f, rest) => [f] + Frames(rest)
    case BadLength => []
    case Cut => []
  }

  lemma HeaderOfFrame(f: Frame, rest: seq<Cell>)
    requires Sendable(f)
    ensures var s := FrameCells(f) + rest;
            |s| >= 4 && U16Of(s[0].b, s[1].b) == f.op && U16Of(s[2].b, s[3].b) == |f.body| + 4
  {
    U16RoundTrip(f.op);
    U16RoundTrip(|f.body| + 4);
    var b := FrameBytes(f.op, f.body);
    assert b[0] == U16Bytes(f.op)[0] && b[1] == U16Bytes(f.op)[1];
    assert b[2] == U16Bytes(|f.body| + 4)[0] && b[3] == U16Bytes(|f.body| + 4)[1];
  }

  lemma FdsOfHeader(f: Frame, rest: seq<Cell>)
    requires Sendable(f)
    ensures FdsOf((FrameCells(f) + rest)[..4]) == f.fds
  {
    var s := (FrameCells(f) + rest)[..4];
    assert s[..3][..2][..1][..0] == [];
    assert s[0].fds == f.fds && s[1].fds == s[2].fds == s[3].fds == [];
    FdsOfLast(s);
    FdsOfLast(s[..3]);
    FdsOfLast(s[..3][..2]);
    FdsOfLast(s[..3][..2][..1]);
    NoFds();
  }

  /** A sent frame is exactly what the receiver finds at the head of the stream, whatever follows it. */
  lemma FrameArrives(f: Frame, rest: seq<Cell>)
    requires Sendable(f)
    ensures NextFrame(FrameCells(f) + rest) == Whole(f, rest) && Fitting(FrameCells(f) + rest)
  {
    hide FdsOf, U16Of, U16Bytes;
    var cells, s := FrameCells(f), FrameCells(f) + rest;
    HeaderOfFrame(f, rest);
    FdsOfHeader(f, rest);
    var total := |f.body| + 4;
    assert |cells| == total && s[total..] == rest;
    assert BytesOf(s[4..total]) == f.body by {
      forall i | 0 <= i < |f.body| ensures s[4..total][i].b == f.body[i] {
        assert s[4 + i] == cells[4 + i];
        assert FrameBytes(f.op, f.body)[4 + i] == f.body[i];
      }
    }
  }

  /** The stream of any sequence of frames splits back into that sequence. */
  lemma {:induction false} StreamRoundTrip(fs: seq<Frame>)
    requires AllSendable(fs)
    ensures Frames(Stream(fs)) == fs
    decreases |fs|
  {
    hide NextFrame, FrameCells;
    if fs == [] {
      NothingThere();
    } else {
      FrameArrives(fs[0], Stream(fs[1..]));
      StreamRoundTrip(fs[1..]);
      assert fs == [fs[0]] + fs[1..];
    }
  }

  lemma NothingThere()
    ensures NextFrame([]) == Cut
  {
  }

  /** No receiver loses its place: after any number of successful receives, by either implementation, what came
      out is what went in, each frame with its own files, and the rest of the stream is intact. */
  lemma {:induction false} NoDesync(fs: seq<Frame>, tail: seq<Cell>, got: seq<Frame>, states: seq<seq<Cell>>)
    requires AllSendable(fs)
    requires |got| <= |fs| && |states| == |got| + 1 && states[0] == Stream(fs) + tail
    requires forall i | 0 <= i < |got| :: Delivered(got[i], states[i + 1], states[i])
    ensures got == fs[..|got|] && states[|got|] == Stream(fs[|got|..]) + tail
    decreases |got|
  {
    hide NextFrame, FrameCells, Fitting;
    if got != [] {
      assert Stream(fs) + tail == FrameCells(fs[0]) + (Stream(fs[1..]) + tail);
      FrameArrives(fs[0], Stream(fs[1..]) + tail);
      assert Delivered(got[0], states[1], states[0]);
      NoDesync(fs[1..], tail, got[1..], states[1..]);
      assert fs[..|got|] == [fs[0]] + fs[1..][..|got| - 1];
      assert got == [got[0]] + got[1..];
      assert fs[1..][|got| - 1..] == fs[|got|..];
    }
  }

  lemma {:induction false} StreamConcat(a: seq<Frame>, b: seq<Frame>)
    requires forall i | 0 <= i < |a + b| :: Sendable((a + b)[i])
    requires (forall i | 0 <= i < |a| :: Sendable(a[i])) && (forall i | 0 <= i < |b| :: Sendable(b[i]))
    ensures Stream(a + b) == Stream(a) + Stream(b)
    decreases |a|
  {
    hide FrameCells, Sendable;
    if a == [] {
      assert a + b == b;
    } else {
      assert (a + b)[1..] == a[1..] + b;
      assert forall i | 0 <= i < |a[1..] + b| :: (a[1..] + b)[i] == (a + b)[i + 1];
      StreamConcat(a[1..], b);
      assert FrameCells(a[0]) + (Stream(a[1..]) + Stream(b)) == FrameCells(a[0]) + Stream(a[1..]) + Stream(b);
    }
  }

  lemma StreamParts(fs: seq<Frame>, n: nat)
    requires n < |fs| && forall i | 0 <= i < |fs| :: Sendable(fs[i])
    ensures Stream(fs[..n + 1]) == Stream(fs[..n]) + FrameCells(fs[n])
    ensures Stream(fs[..n + 1]) <= Stream(fs)
  {
    hide FrameCells, Sendable, Stream;
    assert fs[..n + 1] == fs[..n] + [fs[n]];
    StreamConcat(fs[..n], [fs[n]]);
    StreamOfOne(fs[n]);
    assert fs == fs[..n + 1] + fs[n + 1..];
    StreamConcat(fs[..n + 1], fs[n + 1..]);
  }

  lemma StreamOfOne(f: Frame)
    requires Sendable(f)
    ensures Stream([f]) == FrameCells(f)
  {
    hide FrameCells, Sendable;
    assert [f][1..] == [];
    assert Stream([f]) == FrameCells(f) + Stream([]);
  }

  /** A frame cut short is never taken for a frame. */
  lemma TornFrame(f: Frame, s: seq<Cell>)
    requires Sendable(f) && s <= FrameCells(f) && s != FrameCells(f)
    ensures NextFrame(s) == Cut
  {
    hide FrameCells, Sendable, BytesOf, FdsOf;
    CellCount(f);
    HeaderOfFrame(f, []);
    assert FrameCells(f) + [] == FrameCells(f);
  }

  /** A stream cut anywhere delivers its frames in order, and never the one it was cut in. */
  lemma OneMore(fs: seq<Frame>, s: seq<Cell>, f: Frame, after: seq<Cell>)
    requires AllSendable(fs)
    requires s <= Stream(fs) && Delivered(f, after, s)
    ensures fs != [] && f == fs[0] && after <= Stream(fs[1..])
  {
    hide FrameCells, Fitting, NextFrame, Sendable, Stream;
    NothingThere();
    StreamHead(fs);
    assert fs == [] ==> s == [];
    if fs != [] {
      var c, rest := FrameCells(fs[0]), Stream(fs[1..]);
      PrefixOfTwo(s, c, rest);
      if |s| < |c| {
        TornFrame(fs[0], s);
      } else {
        FrameArrives(fs[0], s[|c|..]);
      }
    }
  }

  lemma StreamHead(fs: seq<Frame>)
    requires AllSendable(fs)
    ensures Stream(fs) == if fs == [] then [] else FrameCells(fs[0]) + Stream(fs[1..])
  {
    hide FrameCells, Sendable;
  }

  lemma PrefixOfTwo<T>(s: seq<T>, a: seq<T>, b: seq<T>)
    requires s <= a + b
    ensures if |s| < |a| then s <= a && s != a else s == a + s[|a|..] && s[|a|..] <= b
  {
  }

  lemma CellCount(f: Frame)
    requires Sendable(f)
    ensures |FrameCells(f)| == |f.body| + 4
  {
  }

  /** The files of several frames, in order. */
  function FilesOf(fs: seq<Frame>): seq<int> {
    if fs == [] then [] else FilesOf(fs[..|fs| - 1]) + fs[|fs| - 1].fds
  }

  predicate AllSendable(fs: seq<Frame>) {
    forall i | 0 <= i < |fs| :: Sendable(fs[i])
  }

  // ---------------------------------------------------------------
  // Both ends together

  /** Event after event; the renderer stops at the first error. */
  method SendEvents(ep: Endpoint, fs: seq<Frame>) returns (rc: int)
    requires AllSendable(fs)
    modifies ep`outbox, ep`interrupts, ep`faults
    ensures ep.faults >= old(ep.faults) && (rc == 0 <==> ep.faults == old(ep.faults))
    ensures old(ep.outbox) <= ep.outbox <= old(ep.outbox) + Stream(fs)
    ensures rc == 0 ==> ep.outbox == old(ep.outbox) + Stream(fs)
  {
    hide FrameCells, Sendable, Stream;
    StreamHead(fs[..0]);
    assert fs[..|fs|] == fs;
    for i := 0 to |fs|
      invariant ep.outbox == old(ep.outbox) + Stream(fs[..i]) && ep.faults == old(ep.faults)
    {
      StreamParts(fs, i);
      rc := ep.SendFrame(fs[i].op, fs[i].body, fs[i].fds);
      Stretch(old(ep.outbox), Stream(fs[..i]), FrameCells(fs[i]), Stream(fs), ep.outbox);
      if rc != 0 { return; }
    }
    rc := 0;
  }

  method SendRequest(ep: Endpoint, f: Frame) returns (r: Sending)
    requires Sendable(f)
    modifies ep`outbox, ep`interrupts, ep`faults
    ensures ep.faults >= old(ep.faults) && (r.SendFault? <==> ep.faults > old(ep.faults))
    ensures r.Sent? || r.ShortWrite? || r.SendFault?
    ensures old(ep.outbox) <= ep.outbox <= old(ep.outbox) + FrameCells(f)
    ensures r.Sent? ==> ep.outbox == old(ep.outbox) + FrameCells(f)
  {
    hide FrameCells;
    CellCount(f);
    r := ep.WriteFramed(f.op, f.body, f.fds);
    assert r.ShortWrite? ==> ep.outbox == (old(ep.outbox) + FrameCells(f))[..|old(ep.outbox)| + r.sent];
  }

  /** Request after request; the daemon stops at the first error. */
  method SendRequests(ep: Endpoint, fs: seq<Frame>) returns (r: Sending)
    requires AllSendable(fs)
    modifies ep`outbox, ep`interrupts, ep`faults
    ensures ep.faults >= old(ep.faults) && (r.Sent? || r.ShortWrite? || r.SendFault?)
    ensures r.SendFault? <==> ep.faults > old(ep.faults)
    ensures old(ep.outbox) <= ep.outbox <= old(ep.outbox) + Stream(fs)
    ensures r.Sent? ==> ep.outbox == old(ep.outbox) + Stream(fs)
  {
    hide FrameCells, Stream;
    StreamHead(fs[..0]);
    assert fs[..|fs|] == fs;
    for i := 0 to |fs|
      invariant ep.outbox == old(ep.outbox) + Stream(fs[..i]) && ep.faults == old(ep.faults)
    {
      StreamParts(fs, i);
      r := SendRequest(ep, fs[i]);
      Stretch(old(ep.outbox), Stream(fs[..i]), FrameCells(fs[i]), Stream(fs), ep.outbox);
      if !r.Sent? { return; }
    }
    r := Sent;
  }

  /** A stream that got as far as `a` and some part of `c`, starting after `o`. */
  lemma Stretch(o: seq<Cell>, a: seq<Cell>, c: seq<Cell>, all: seq<Cell>, s: seq<Cell>)
    requires a + c <= all && o + a <= s <= o + a + c
    ensures o <= s <= o + all && o + a + c == o + (a + c)
  {
    assert forall i | 0 <= i < |s| :: s[i] == (o + a + c)[i];
  }

  /** What one successful receive does to a stream of frames that may have been cut. */
  lemma ReceivedOne(fs: seq<Frame>, k: nat, before: seq<Cell>, f: Frame, after: seq<Cell>)
    requires AllSendable(fs) && k <= |fs|
    requires before <= Stream(fs[k..]) && Delivered(f, after, before)
    ensures k < |fs| && f == fs[k] && after <= Stream(fs[k + 1..])
    ensures before == Stream(fs[k..]) ==> after == Stream(fs[k + 1..])
  {
    hide FrameCells, Fitting, NextFrame, Sendable, Stream;
    OneMore(fs[k..], before, f, after);
    assert fs[k..][1..] == fs[k + 1..];
    StreamHead(fs[k..]);
    FrameArrives(fs[k], Stream(fs[k + 1..]));
  }

  /** Frames go on arriving while there are any. */
  lemma OneIsThere(fs: seq<Frame>, k: nat)
    requires AllSendable(fs) && k < |fs|
    ensures var s := Stream(fs[k..]); NextFrame(s).Whole? && Fitting(s) && HeaderFds(s) == fs[k].fds
    ensures |fs[k].fds| <= MAX_FDS
  {
    assert Sendable(fs[k]);
    hide FrameCells, Fitting, NextFrame, Sendable, Stream;
    assert fs[k..][1..] == fs[k + 1..];
    StreamHead(fs[k..]);
    FrameArrives(fs[k], Stream(fs[k + 1..]));
    HeaderFiles(Stream(fs[k..]));
  }

  lemma EmptyStream()
    ensures Stream([]) == [] && Fitting([]) && HeaderFds([]) == [] && Unclosed([], []) == []
  {
    NoFds();
    assert forall s: seq<Cell> | s == [] :: s[..0] == [];
  }

  lemma HeaderFiles(s: seq<Cell>)
    ensures NextFrame(s).Whole? ==> NextFrame(s).f.fds == HeaderFds(s)
  {
    hide FdsOf;
  }

  lemma OneMoreFile(fs: seq<Frame>, k: nat)
    requires k < |fs|
    ensures multiset(FilesOf(fs[..k + 1])) == multiset(FilesOf(fs[..k])) + multiset(fs[k].fds)
  {
    assert fs[..k + 1][..k] == fs[..k];
  }

  lemma {:induction false} NoFilesOn(s: seq<Cell>)
    requires forall i | 0 <= i < |s| :: s[i].fds == []
    ensures FdsOf(s) == []
    decreases |s|
  {
    if s != [] { NoFilesOn(s[..|s| - 1]); }
  }

  /** A stream of frames, cut anywhere: its first byte carries the files of its first frame, the other header
      bytes none. */
  lemma FilesComeFirst(fs: seq<Frame>, s: seq<Cell>)
    requires AllSendable(fs) && s <= Stream(fs) && s != []
    ensures fs != [] && s[0].fds == fs[0].fds && forall i | 1 <= i < Head(s) :: s[i].fds == []
  {
    hide FdsOf, Stream;
    StreamHead(fs);
    CellCount(fs[0]);
    var c := FrameCells(fs[0]);
    assert forall i | 0 <= i < Head(s) :: s[i] == c[i];
  }

  /** It fits, and a delivery cut within its header has lost files of its first frame. */
  lemma StreamFits(fs: seq<Frame>, s: seq<Cell>, start: nat, end: nat, left: seq<int>)
    requires AllSendable(fs) && s <= Stream(fs)
    ensures Fitting(s)
    ensures CutDelivery(s, start, end, left) ==> fs != [] && left <= fs[0].fds && left != fs[0].fds
  {
    hide FdsOf, Stream;
    if s == [] {
      assert s[..0] == s;
      NoFds();
    } else {
      FilesComeFirst(fs, s);
      FilesOfStart(s, Head(s));
      if CutDelivery(s, start, end, left) {
        FilesOfStart(s, end);
        if start > 0 { LaterFiles(s, start, end); }
      }
    }
  }

  lemma FilesOfStart(s: seq<Cell>, n: nat)
    requires 0 < n <= Head(s) && forall i | 1 <= i < Head(s) :: s[i].fds == []
    ensures FdsOf(s[..n]) == s[0].fds
  {
    assert s[..n] == [s[0]] + s[1..n];
    FdsOfConcat([s[0]], s[1..n]);
    NoFilesOn(s[1..n]);
    FdsOfLast([s[0]]);
    NoFds();
    hide FdsOf;
  }

  lemma LaterFiles(s: seq<Cell>, start: nat, end: nat)
    requires 0 < start <= end <= Head(s) && forall i | 1 <= i < Head(s) :: s[i].fds == []
    ensures FdsOf(s[start..end]) == []
  {
    NoFilesOn(s[start..end]);
    hide FdsOf;
  }

  /** The daemon takes events until a receive fails: what it gets are the first of the frames, each with its own
      files, however the stream was cut; all of them when nothing failed. Files are left open only by a cut
      delivery, and then some of those of the next frame. */
  method TakeEvents(ep: Endpoint, ghost fs: seq<Frame>) returns (got: seq<Frame>, ghost left: seq<int>)
    requires AllSendable(fs) && ep.inbox <= Stream(fs)
    modifies ep`inbox, ep`open, ep`interrupts, ep`faults, ep`cuts
    ensures got <= fs && ep.faults >= old(ep.faults) && ep.cuts >= old(ep.cuts)
    ensures ep.open == old(ep.open) + multiset(FilesOf(got)) + multiset(left)
    ensures ep.faults == old(ep.faults) ==> ep.cuts == old(ep.cuts)
    ensures if ep.cuts == old(ep.cuts) then left == [] else LeftOf(left, fs, |got|)
    ensures ep.faults == old(ep.faults) && old(ep.inbox) == Stream(fs) ==> got == fs
  {
    hide FrameCells, Fitting, NextFrame, Sendable, Stream, FilesOf, CutDelivery, Overfull;
    got := [];
    assert fs[0..] == fs;
    NoFiles();
    while true
      invariant got <= fs && ep.faults == old(ep.faults) && ep.cuts == old(ep.cuts)
      invariant ep.inbox <= Stream(fs[|got|..])
      invariant old(ep.inbox) == Stream(fs) ==> ep.inbox == Stream(fs[|got|..])
      invariant ep.open == old(ep.open) + multiset(FilesOf(got))
      decreases |fs| - |got|
    {
      ghost var before := ep.inbox;
      ghost var k := |got|;
      assert got == fs[..k];
      if k < |fs| { OneIsThere(fs, k); }
      var r;
      ghost var start;
      r, left, start := ep.ReadFramed();
      StreamFits(fs[k..], before, start, |before| - |ep.inbox|, left);
      if !r.Received? { return; }
      ReceivedOne(fs, k, before, r.f, ep.inbox);
      OneMoreFile(fs, k);
      got := got + [r.f];
      assert got == fs[..k + 1];
    }
  }

  /** Some files, not all, of frame k. */
  predicate LeftOf(left: seq<int>, fs: seq<Frame>, k: nat) {
    k < |fs| && left <= fs[k].fds && left != fs[k].fds
  }

  lemma NoFiles()
    ensures FilesOf([]) == []
  {
  }

  /** The first of some frames, but perhaps for files. */
  predicate SameMessages(got: seq<Frame>, fs: seq<Frame>) {
    |got| <= |fs| && forall i | 0 <= i < |got| :: got[i].op == fs[i].op && got[i].body == fs[i].body
  }

  lemma NoMessages(fs: seq<Frame>)
    ensures SameMessages([], fs)
  {
  }

  lemma OneMoreMessage(got: seq<Frame>, fs: seq<Frame>, f: Frame)
    requires SameMessages(got, fs) && |got| < |fs| && f.op == fs[|got|].op && f.body == fs[|got|].body
    ensures SameMessages(got + [f], fs)
    ensures got == fs[..|got|] && f == fs[|got|] ==> got + [f] == fs[..|got| + 1]
  {
  }

  lemma TakenIsDelivered(fs: seq<Frame>, k: nat, before: seq<Cell>, f: Frame, after: seq<Cell>, whole: bool)
    requires AllSendable(fs) && k <= |fs| && before <= Stream(fs[k..]) && Taken(f, after, before, whole)
    ensures k < |fs| && f.op == fs[k].op && f.body == fs[k].body && (whole ==> f == fs[k])
    ensures after <= Stream(fs[k + 1..]) && (before == Stream(fs[k..]) ==> after == Stream(fs[k + 1..]))
  {
    hide NextFrame, Sendable, Stream;
    ReceivedOne(fs, k, before, f.(fds := NextFrame(before).f.fds), after);
  }

  /** One request, whose body is not kept. */
  method TakeRequest(ep: Endpoint, h: Ledger, ghost fs: seq<Frame>, ghost k: nat) returns (rc: int, f: Frame)
    requires h.Valid() && AllSendable(fs) && k <= |fs| && ep.inbox <= Stream(fs[k..])
    modifies ep`inbox, ep`open, ep`interrupts, ep`faults, ep`cuts, h
    ensures h.Valid() && h.live == old(h.live) && h.refusals >= old(h.refusals)
    ensures ep.faults >= old(ep.faults) && ep.cuts >= old(ep.cuts)
    ensures ep.faults == old(ep.faults) ==> ep.cuts == old(ep.cuts)
    ensures rc == 0 ==> k < |fs| && f.op == fs[k].op && f.body == fs[k].body && h.refusals == old(h.refusals)
    ensures rc == 0 && ep.cuts == old(ep.cuts) ==> f == fs[k] && ep.open == old(ep.open) + multiset(f.fds)
    ensures rc == 0 ==> ep.inbox <= Stream(fs[k + 1..])
    ensures rc == 0 && old(ep.inbox) == Stream(fs[k..]) ==> ep.inbox == Stream(fs[k + 1..])
    ensures rc != 0 && ep.faults == old(ep.faults) && h.refusals == old(h.refusals)
            && old(ep.inbox) == Stream(fs[k..]) ==>
              k == |fs| && ep.open == old(ep.open)
  {
    hide FrameCells, Fitting, NextFrame, Sendable, Stream, FilesOf, HeaderFds, Taken, Unclosed, Part;
    ghost var before := ep.inbox;
    EmptyStream();
    StreamFits(fs[k..], before, 0, 0, []);
    if k < |fs| { OneIsThere(fs, k); } else { assert fs[k..] == []; }
    var op, ptr, body, fds;
    rc, op, ptr, body, fds := ep.RecvFrame(h, MAX_FDS);
    f := Frame(op, body, fds);
    if rc != 0 {
      PartIsWhole(fds, []);
    } else {
      TakenIsDelivered(fs, k, before, f, ep.inbox, ep.cuts == old(ep.cuts));
    }
    h.Free(ptr, old(h.live));
  }

  /** The bridge takes requests in the same way, over its own receive. Its frames are whole when no delivery was
      cut; otherwise they may lack files. */
  method TakeRequests(ep: Endpoint, h: Ledger, ghost fs: seq<Frame>) returns (got: seq<Frame>)
    requires h.Valid() && AllSendable(fs) && ep.inbox <= Stream(fs)
    modifies ep`inbox, ep`open, ep`interrupts, ep`faults, ep`cuts, h
    ensures h.Valid() && h.live == old(h.live) && h.refusals >= old(h.refusals)
    ensures SameMessages(got, fs) && ep.faults >= old(ep.faults) && ep.cuts >= old(ep.cuts)
    ensures ep.cuts == old(ep.cuts) ==> got <= fs
    ensures ep.faults == old(ep.faults) ==> ep.cuts == old(ep.cuts)
    ensures ep.faults == old(ep.faults) && h.refusals == old(h.refusals) && old(ep.inbox) == Stream(fs) ==>
              got == fs && ep.open == old(ep.open) + multiset(FilesOf(got))
  {
    hide Sendable, Stream, FilesOf, SameMessages;
    got := [];
    assert fs[0..] == fs;
    NoFiles();
    NoMessages(fs);
    while true
      invariant h.Valid() && h.live == old(h.live) && h.refusals == old(h.refusals)
      invariant |got| <= |fs| && SameMessages(got, fs) && ep.faults >= old(ep.faults) && ep.cuts >= old(ep.cuts)
      invariant ep.faults == old(ep.faults) ==> ep.cuts == old(ep.cuts)
      invariant ep.cuts == old(ep.cuts) ==> got == fs[..|got|] && ep.open == old(ep.open) + multiset(FilesOf(got))
      invariant ep.inbox <= Stream(fs[|got|..])
      invariant old(ep.inbox) == Stream(fs) ==> ep.inbox == Stream(fs[|got|..])
      decreases |fs| - |got|
    {
      var rc, f := TakeRequest(ep, h, fs, |got|);
      if rc != 0 { return; }
      OneMoreFile(fs, |got|);
      OneMoreMessage(got, fs, f);
      got := got + [f];
    }
  }

  /** What one end has sent arrives at the other, however much it was; then the sender hangs up. */
  method Carry(from: Endpoint, to: Endpoint)
    requires from != to && to.inbox == []
    modifies from`outbox, to`inbox
    ensures from.outbox == [] && to.inbox == old(from.outbox)
  {
    to.inbox, from.outbox := from.outbox, [];
  }

  /** A renderer's events, end to end. Whatever failed on either side, the daemon has the first of them and
      nothing else; all of them when no call failed. */
  method EventsCross(renderer: Endpoint, daemon: Endpoint, fs: seq<Frame>)
    returns (rc: int, got: seq<Frame>, ghost left: seq<int>)
    requires renderer != daemon && renderer.outbox == [] && daemon.inbox == [] && AllSendable(fs)
    modifies renderer, daemon
    ensures got <= fs && daemon.open == old(daemon.open) + multiset(FilesOf(got)) + multiset(left)
    ensures if daemon.cuts == old(daemon.cuts) then left == [] else LeftOf(left, fs, |got|)
    ensures daemon.faults == old(daemon.faults) ==> daemon.cuts == old(daemon.cuts)
    ensures renderer.faults == old(renderer.faults) && daemon.faults == old(daemon.faults) ==> rc == 0 && got == fs
  {
    hide AllSendable, Stream, FilesOf;
    rc := SendEvents(renderer, fs);
    Carry(renderer, daemon);
    got, left := TakeEvents(daemon, fs);
  }

  /** The daemon's requests, end to end, in the same sense; a short write also stops the daemon. */
  method RequestsCross(daemon: Endpoint, renderer: Endpoint, h: Ledger, fs: seq<Frame>)
    returns (r: Sending, got: seq<Frame>)
    requires daemon != renderer && daemon.outbox == [] && renderer.inbox == [] && AllSendable(fs) && h.Valid()
    modifies daemon, renderer, h
    ensures h.Valid() && h.live == old(h.live) && SameMessages(got, fs)
    ensures renderer.cuts == old(renderer.cuts) ==> got <= fs
    ensures renderer.faults == old(renderer.faults) ==> renderer.cuts == old(renderer.cuts)
    ensures r.Sent? && renderer.faults == old(renderer.faults) && h.refusals == old(h.refusals) ==>
              got == fs && renderer.open == old(renderer.open) + multiset(FilesOf(got))
    ensures daemon.faults == old(daemon.faults) ==> r.Sent? || r.ShortWrite?
  {
    hide AllSendable, Stream, FilesOf;
    r := SendRequests(daemon, fs);
    Carry(daemon, renderer);
    got := TakeRequests(renderer, h, fs);
  }

  /** The input for the daemon's side: a first byte that carries more files than the control buffer takes. Whoever
      reads it reports an error and leaves the first of them open. */
  method OverfullLeaks(ep: Endpoint, op: u16, fds: seq<int>) returns (r: Receiving)
    requires |fds| > MAX_FDS && ep.inbox == Cells(FrameBytes(op, []), fds)
    modifies ep`inbox, ep`open, ep`interrupts, ep`faults, ep`cuts
    ensures ep.faults == old(ep.faults) ==>
              r == ReceiveFault(-ENOBUFS) && ep.open == old(ep.open) + multiset(fds[..MAX_FDS])
  {
    ghost var s := ep.inbox;
    ghost var left, start;
    assert s[0].fds == fds && Overfull(s);
    hide FdsOf, FrameBytes, NextFrame, Fitting;
    r, left, start := ep.ReadFramed();
    if ep.faults == old(ep.faults) {
      ghost var end := |s| - |ep.inbox|;
      if start > 0 { LaterFiles(s, start, end); }
      FilesOfStart(s, end);
      assert start == 0 && s[0..end] == s[..end];
      assert left == fds[..MAX_FDS];
    }
  }
}
