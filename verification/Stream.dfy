/** The buffered streams of user/libc/stdio.c, proved to behave as a plain (contents, position)
    file whatever the descriptor's short reads, short writes and failures. */
module Stream {
  import opened Descriptor

  datatype LastOp = NoOp | ReadOp | WriteOp

  const SIZE_MAX: nat := 0xffff_ffff_ffff_ffff
  const EOF: int := -1

  class Stream {
    const fd: Descriptor
    const buffer: array<Byte>
    const canRead: bool
    const canWrite: bool
    var bufferPos: nat
    var bufferEnd: nat
    var offset: nat
    var lastOp: LastOp
    var eof: bool
    var error: bool
    /** Every byte fwrite has taken since the stream was opened. */
    ghost var accepted: seq<Byte>

    // ----- what the fields stand for -----

    /** Bytes accepted and not yet handed to the descriptor. */
    ghost function Pending(): seq<Byte>
      requires bufferPos <= buffer.Length
      reads this, buffer
    {
      if lastOp == WriteOp then buffer[..bufferPos] else []
    }

    ghost predicate Shape()
      reads this, fd, buffer
    {
      && buffer.Length > 0
      && offset == fd.pos
      && match lastOp
         case NoOp => bufferPos == 0 && bufferEnd == 0
         case ReadOp =>
           && bufferPos <= bufferEnd <= buffer.Length && bufferEnd <= offset
           && (bufferEnd > 0 ==> offset <= |fd.contents|)
         case WriteOp => bufferPos <= buffer.Length && bufferEnd == 0
    }

    /** Nothing accepted is lost, repeated or reordered. */
    ghost predicate Conserved()
      requires bufferPos <= buffer.Length
      reads this, fd, buffer
    {
      accepted == fd.delivered + Pending()
    }

    ghost predicate Valid()
      reads this, fd, buffer
    {
      Shape() && Conserved()
    }

    /** The logical file: pending bytes count as written. */
    ghost function Contents(): seq<Byte>
      requires Shape()
      reads this, fd, buffer
    {
      Overlay(fd.contents, offset, Pending())
    }

    /** The logical position: unread bytes are not yet passed, pending bytes are. */
    ghost function Position(): nat
      requires Shape()
      reads this, fd, buffer
    {
      match lastOp
      case NoOp => offset
      case ReadOp => offset - (bufferEnd - bufferPos)
      case WriteOp => offset + bufferPos
    }

    /** The bytes a reader is about to see. */
    ghost function Upcoming(): seq<Byte>
      requires Shape()
      reads this, fd, buffer
    {
      if lastOp == ReadOp then buffer[bufferPos..bufferEnd] + Tail(fd.contents, offset)
      else Tail(Contents(), Position())
    }

    /** The read-ahead is what the file holds; only ungetc of another byte breaks this. */
    ghost predicate Clean()
      requires Shape()
      reads this, fd, buffer
    {
      lastOp == ReadOp && bufferEnd > 0 ==> buffer[..bufferEnd] == fd.contents[offset - bufferEnd..offset]
    }

    lemma CleanUpcoming()
      requires Shape() && Clean()
      ensures Upcoming() == Tail(Contents(), Position())
    {
      if lastOp == ReadOp && bufferEnd > 0 {
        var c, p := fd.contents, Position();
        assert buffer[bufferPos..bufferEnd] == buffer[..bufferEnd][bufferPos..];
        assert c[p..] == c[p..offset] + c[offset..];
      }
    }

    twostate predicate SameFile()
      requires old(Shape()) && Shape()
      reads this, fd, buffer
    {
      Contents() == old(Contents()) && Position() == old(Position()) && accepted == old(accepted)
    }

    // ----- operations -----

    /** fopen and fdopen on a descriptor that reports its position. */
    constructor (fd: Descriptor, canRead: bool, canWrite: bool)
      ensures this.fd == fd && this.canRead == canRead && this.canWrite == canWrite
      ensures fresh(buffer) && buffer.Length == 4096
      ensures Valid() && Clean() && !eof && !error
      ensures Contents() == fd.contents && Position() == fd.pos && accepted == fd.delivered
    {
      this.fd, this.canRead, this.canWrite := fd, canRead, canWrite;
      buffer := new Byte[4096];
      bufferPos, bufferEnd, offset, lastOp := 0, 0, fd.pos, NoOp;
      eof, error := false, false;
      accepted := fd.delivered;
    }

    /** stream_flush_write. Success empties the buffer; a failed write keeps exactly the bytes the
        descriptor did not take. A write that returns 0 does not compact the buffer, so it keeps
        the books straight exactly when no byte of this flush had been delivered before it. */
    method FlushWrite() returns (r: int, ghost progress: nat)
      requires Valid()
      modifies this, fd, buffer
      ensures r == 0 || r == -1
      ensures lastOp == old(lastOp) && eof == old(eof) && accepted == old(accepted)
      ensures r == 0 ==> fd.faults == old(fd.faults) && fd.stalls == old(fd.stalls) && error == old(error)
      ensures r == 0 ==> Valid() && SameFile() && (lastOp == WriteOp ==> bufferPos == 0)
      ensures r == 0 && lastOp != WriteOp ==> unchanged(this) && unchanged(fd) && unchanged(buffer)
      ensures r == -1 ==> error && lastOp == WriteOp && fd.faults + fd.stalls > old(fd.faults + fd.stalls)
      ensures r == -1 && fd.stalls == old(fd.stalls) ==> Valid() && SameFile()
      ensures r == -1 && fd.stalls > old(fd.stalls) ==> Stalled(progress) && (Conserved() <==> progress == 0)
    {
      hide Overlay;
      progress := 0;
      if lastOp != WriteOp {
        return 0, 0;
      }
      var pending := bufferPos;
      ghost var b, c, d := buffer[..pending], fd.contents, fd.delivered;
      var rc, done := Drain();
      progress := done;
      if rc == 0 {
        error := true;
        OverlayTwice(c, old(offset), b[..done], b);
        StalledBooks(d, b, done);
        return -1, done;
      }
      FlushedBooks(d, b, done);
      OverlayPrefix(c, old(offset), b, done, pending);
      if rc < 0 {
        error := true;
        KeepRest(done, pending);
        return -1, done;
      }
      OverlayNothing(fd.contents, offset);
      bufferPos := 0;
      bufferEnd := 0;
      r := 0;
    }

    /** After a write that returned 0: the first `progress` pending bytes are delivered, and all of
        them are still pending, to be written again behind the others. */
    twostate predicate Stalled(progress: nat)
      requires old(Shape())
      reads this, fd, buffer
    {
      && Shape() && progress <= |old(Pending())|
      && Pending() == old(Pending()) && fd.delivered == old(fd.delivered) + old(Pending())[..progress]
      && Contents() == Overlay(old(fd.contents), old(offset), old(Pending())[..progress] + old(Pending()))
      && Position() == old(Position()) + progress
    }

    /** The write loop of a flush. It stops when every byte is taken, at the first failure, or at
        the first write that returns 0; `done` bytes have then reached the descriptor. */
    method Drain() returns (rc: int, done: nat)
      requires lastOp == WriteOp && bufferPos <= buffer.Length && offset == fd.pos
      modifies this`offset, fd
      ensures done <= bufferPos && offset == fd.pos == old(offset) + done
      ensures fd.contents == Overlay(old(fd.contents), old(offset), buffer[..bufferPos][..done])
      ensures fd.delivered == old(fd.delivered) + buffer[..bufferPos][..done]
      ensures rc > 0 ==> done == bufferPos && fd.faults == old(fd.faults) && fd.stalls == old(fd.stalls)
      ensures rc == 0 ==> fd.stalls > old(fd.stalls) && fd.faults == old(fd.faults)
      ensures rc < 0 ==> fd.stalls == old(fd.stalls) && fd.faults > old(fd.faults)
    {
      hide Overlay;
      rc, done := 1, 0;
      var pending := bufferPos;
      ghost var b, c := buffer[..pending], fd.contents;
      OverlayNothing(c, offset);
      while done < pending
        invariant 0 <= done <= pending && rc > 0
        invariant fd.faults == old(fd.faults) && fd.stalls == old(fd.stalls)
        invariant offset == fd.pos == old(offset) + done
        invariant fd.contents == Overlay(c, old(offset), b[..done])
        invariant fd.delivered == old(fd.delivered) + b[..done]
      {
        assert buffer[done..pending] == b[done..];
        rc := fd.Write(buffer[done..pending]);
        if rc <= 0 {
          return;
        }
        OverlayPrefix(c, old(offset), b, done, done + rc);
        assert b[done..][..rc] == b[done..done + rc];
        done := done + rc;
        offset := offset + rc;
      }
    }

    /** Move the bytes that were not taken to the front of the buffer. */
    method KeepRest(done: nat, pending: nat)
      requires done <= pending == bufferPos <= buffer.Length
      modifies this`bufferPos, buffer
      ensures bufferPos == pending - done
      ensures buffer[..bufferPos] == old(buffer[..])[done..pending]
    {
      forall i | 0 <= i < pending - done {
        buffer[i] := buffer[i + done];
      }
      bufferPos := pending - done;
    }

    /** stream_prepare_for_read: switching from writing flushes; the logical file is unmoved. */
    method PrepareForRead() returns (r: int)
      requires Valid()
      modifies this, fd, buffer
      ensures r == 0 || r == -1
      ensures r == 0 ==> canRead && Valid() && lastOp == ReadOp && !eof
      ensures r == 0 ==> fd.faults == old(fd.faults) && fd.stalls == old(fd.stalls) && error == old(error)
      ensures r == -1 ==> error && (canRead ==> fd.faults + fd.stalls > old(fd.faults + fd.stalls))
      ensures fd.stalls == old(fd.stalls) ==>
                Valid() && SameFile() && Upcoming() == old(Upcoming()) && (old(Clean()) ==> Clean())
    {
      hide Overlay;
      if !canRead {
        error := true;
        return -1;
      }
      if lastOp == WriteOp {
        ghost var progress;
        r, progress := FlushWrite();
        if r < 0 {
          return -1;
        }
        assert buffer[..bufferPos] == [];
        OverlayNothing(fd.contents, offset);
        lastOp := NoOp;
      }
      OverlayNothing(fd.contents, offset);
      if lastOp != ReadOp {
        bufferPos, bufferEnd := 0, 0;
      }
      lastOp := ReadOp;
      eof := false;
      r := 0;
      assert buffer[bufferPos..bufferEnd] + Tail(fd.contents, offset) == Upcoming();
    }

    /** stream_prepare_for_write: switching from reading gives back the unread bytes. */
    method PrepareForWrite() returns (r: int)
      requires Valid()
      modifies this, fd`pos, fd`faults
      ensures r == 0 || r == -1
      ensures Valid() && SameFile() && (old(Clean()) ==> Clean())
      ensures r == 0 ==> canWrite && lastOp == WriteOp && !eof && fd.faults == old(fd.faults) && error == old(error)
      ensures r == -1 ==> error && lastOp == old(lastOp) && (canWrite ==> fd.faults > old(fd.faults))
    {
      hide Overlay;
      if !canWrite {
        error := true;
        return -1;
      }
      OverlayNothing(fd.contents, offset);
      OverlayNothing(fd.contents, Position());
      if lastOp == ReadOp {
        var unread := 0;
        if bufferEnd > bufferPos {
          unread := bufferEnd - bufferPos;
        }
        if unread > 0 {
          var rc := fd.Lseek(-unread, Cur);
          if rc < 0 {
            error := true;
            return -1;
          }
          offset := rc;
        }
        bufferPos, bufferEnd := 0, 0;
      }
      assert old(lastOp) != WriteOp ==> buffer[..bufferPos] == [];
      lastOp := WriteOp;
      eof := false;
      r := 0;
    }

    /** The byte loop of fread: the next bytes of the logical file, exactly as many as asked for
        unless the file ends or a call fails. */
    method ReadBytes(total: nat) returns (data: seq<Byte>)
      requires Valid()
      modifies this, fd, buffer
      ensures fd.stalls == old(fd.stalls) ==>
                && Valid() && (old(Clean()) ==> Clean())
                && |data| <= total && old(Upcoming()) == data + Upcoming()
                && Contents() == old(Contents()) && Position() == old(Position()) + |data|
                && accepted == old(accepted)
      ensures fd.stalls == old(fd.stalls) && fd.faults == old(fd.faults) && canRead && |data| < total ==>
                eof && Upcoming() == []
      ensures !canRead ==> data == []
    {
      hide Upcoming;
      hide Contents;
      hide Position;
      hide Clean;
      hide Shape;
      hide Conserved;
      data := [];
      assert [] + Upcoming() == Upcoming();
      var r := PrepareForRead();
      if r < 0 {
        return;
      }
      while |data| < total
        invariant |data| <= total
        invariant Valid() && lastOp == ReadOp && fd.stalls == old(fd.stalls) && fd.faults == old(fd.faults)
        invariant old(Clean()) ==> Clean()
        invariant Contents() == old(Contents()) && accepted == old(accepted)
        invariant data + Upcoming() == old(Upcoming())
        invariant Position() == old(Position()) + |data|
        decreases total - |data|, if bufferPos < bufferEnd then 0 else 1
      {
        if bufferPos < bufferEnd {
          var available := bufferEnd - bufferPos;
          var need := total - |data|;
          var toCopy := if available < need then available else need;
          ghost var before := data;
          var piece := Take(toCopy);
          data := data + piece;
          assert before + (piece + Upcoming()) == data + Upcoming();
          continue;
        }
        var ok := Refill();
        if !ok {
          break;
        }
      }
    }

    /** Copy out of the read-ahead. */
    method Take(k: nat) returns (piece: seq<Byte>)
      requires Valid() && lastOp == ReadOp && k <= bufferEnd - bufferPos
      modifies this`bufferPos
      ensures Valid() && |piece| == k && bufferPos == old(bufferPos) + k
      ensures old(Upcoming()) == piece + Upcoming() && Position() == old(Position()) + k
      ensures Contents() == old(Contents()) && (old(Clean()) ==> Clean())
    {
      hide Overlay;
      hide Tail;
      OverlayNothing(fd.contents, offset);
      ghost var ahead := buffer[bufferPos..bufferEnd];
      piece := buffer[bufferPos..bufferPos + k];
      bufferPos := bufferPos + k;
      assert ahead == piece + buffer[bufferPos..bufferEnd];
    }

    /** A call refused before it touches the file. */
    method MarkError()
      requires Valid()
      modifies this`error
      ensures error && Valid() && SameFile()
      ensures Upcoming() == old(Upcoming()) && (old(Clean()) ==> Clean())
    {
      hide Overlay;
      error := true;
    }

    /** fread: whole items out of the bytes delivered. */
    method Fread(size: nat, nmemb: nat) returns (n: nat, data: seq<Byte>)
      requires Valid()
      modifies this, fd, buffer
      ensures size > 0 ==> n == |data| / size
      ensures size == 0 ==> n == 0
      ensures fd.stalls == old(fd.stalls) ==>
                && Valid() && (old(Clean()) ==> Clean())
                && |data| <= size * nmemb && old(Upcoming()) == data + Upcoming()
                && Contents() == old(Contents()) && Position() == old(Position()) + |data|
                && accepted == old(accepted)
      ensures (fd.stalls == old(fd.stalls) && fd.faults == old(fd.faults) && canRead
               && |data| < size * nmemb <= SIZE_MAX) ==> eof && Upcoming() == []
      ensures size * nmemb > SIZE_MAX ==> data == [] && error
      ensures !canRead ==> data == []
    {
      hide Overlay, Upcoming, Contents, Position, Clean, Shape, Conserved;
      n, data := 0, [];
      assert [] + Upcoming() == Upcoming();
      if size == 0 || nmemb == 0 {
        assert size * nmemb == 0;
        return;
      }
      var total := size * nmemb;
      if total > SIZE_MAX {
        MarkError();
        return;
      }
      data := ReadBytes(total);
      n := |data| / size;
    }

    /** One read into the empty buffer. */
    method Refill() returns (ok: bool)
      requires Valid() && lastOp == ReadOp && bufferPos >= bufferEnd
      modifies this, fd`pos, fd`faults, buffer
      ensures Valid() && lastOp == ReadOp && accepted == old(accepted) && Contents() == old(Contents())
      ensures Upcoming() == old(Upcoming()) && Position() == old(Position()) && (old(Clean()) ==> Clean())
      ensures ok ==> bufferPos < bufferEnd && fd.faults == old(fd.faults)
      ensures !ok ==> fd.faults > old(fd.faults) || (fd.faults == old(fd.faults) && eof && Upcoming() == [])
    {
      hide Overlay, Tail;
      EmptyAhead();
      var rc, data := fd.Read(buffer.Length);
      ok := rc > 0;
      if rc < 0 {
        error := true;
        EmptyAhead();
      } else if rc == 0 {
        eof := true;
        EmptyAhead();
      } else {
        Accept(data);
      }
    }

    /** With the read-ahead used up, the stream stands where the descriptor does. */
    lemma EmptyAhead()
      requires Shape() && lastOp == ReadOp && bufferPos >= bufferEnd
      ensures Contents() == fd.contents && Position() == offset && Upcoming() == Tail(fd.contents, offset)
    {
      hide Overlay, Tail;
      OverlayNothing(fd.contents, offset);
      assert buffer[bufferPos..bufferEnd] == [];
      assert [] + Tail(fd.contents, offset) == Tail(fd.contents, offset);
    }

    /** Take in what a read delivered. */
    method Accept(data: seq<Byte>)
      requires lastOp == ReadOp && accepted == fd.delivered && fd.pos == offset + |data|
      requires data != [] && |data| <= buffer.Length && data <= Tail(fd.contents, offset)
      modifies this`bufferPos, this`bufferEnd, this`offset, buffer
      ensures Valid() && Clean() && bufferPos < bufferEnd
      ensures Contents() == fd.contents && Position() == old(offset) && Upcoming() == Tail(fd.contents, old(offset))
    {
      hide Overlay;
      TailPrefix(fd.contents, offset, data);
      hide Tail;
      Load(data);
      OverlayNothing(fd.contents, offset);
      assert buffer[bufferPos..bufferEnd] == data;
    }

    /** The buffer after a read that brought in `data`. */
    method Load(data: seq<Byte>)
      requires |data| <= buffer.Length
      modifies this`bufferPos, this`bufferEnd, this`offset, buffer
      ensures bufferPos == 0 && bufferEnd == |data| && offset == old(offset) + |data|
      ensures buffer[..bufferEnd] == data
    {
      forall i | 0 <= i < |data| {
        buffer[i] := data[i];
      }
      bufferPos := 0;
      bufferEnd := |data|;
      offset := offset + |data|;
    }

    /** ftell. */
    method Ftell() returns (position: int)
      requires Valid()
      ensures position == Position()
    {
      position := offset;
      if lastOp == ReadOp {
        if bufferEnd >= bufferPos {
          position := position - (bufferEnd - bufferPos);
        }
      } else if lastOp == WriteOp {
        position := position + bufferPos;
      }
    }

    /** fseek: moves the logical position to the target; on failure nothing logical changes. */
    method Fseek(delta: int, whence: Whence) returns (r: int)
      requires Valid()
      modifies this, fd, buffer
      ensures r == 0 || r == -1
      ensures fd.stalls == old(fd.stalls) ==>
                Valid() && Contents() == old(Contents()) && accepted == old(accepted) && (old(Clean()) ==> Clean())
      ensures r == 0 ==>
                && Valid() && fd.stalls == old(fd.stalls) && fd.faults == old(fd.faults) && lastOp == NoOp && !eof
                && Position() == SeekTarget(old(Contents()), old(Position()), delta, whence)
      ensures r == -1 ==> error
      ensures r == -1 && fd.stalls == old(fd.stalls) ==> Position() == old(Position())
      ensures r == -1 && fd.stalls == old(fd.stalls) && fd.faults == old(fd.faults) ==>
                SeekTarget(old(Contents()), old(Position()), delta, whence) < 0
    {
      hide Overlay;
      if lastOp == WriteOp {
        ghost var progress;
        r, progress := FlushWrite();
        if r < 0 {
          return -1;
        }
        assert buffer[..bufferPos] == [];
      }
      OverlayNothing(fd.contents, offset);
      var d := delta;
      if lastOp == ReadOp && whence == Cur {
        if bufferEnd >= bufferPos {
          d := d - (bufferEnd - bufferPos);
        }
      }
      label Flushed:
      var rc := fd.Lseek(d, whence);
      if rc < 0 {
        error := true;
        return -1;
      }
      offset := rc;
      bufferPos, bufferEnd := 0, 0;
      lastOp := NoOp;
      eof := false;
      OverlayNothing(fd.contents, offset);
      r := 0;
    }

    /** Put bytes into the buffer. */
    method Stash(piece: seq<Byte>)
      requires Valid() && lastOp == WriteOp && bufferPos + |piece| <= buffer.Length
      modifies this`bufferPos, this`accepted, buffer
      ensures Valid() && bufferPos == old(bufferPos) + |piece|
      ensures Contents() == Overlay(old(Contents()), old(Position()), piece)
      ensures Position() == old(Position()) + |piece| && accepted == old(accepted) + piece
    {
      hide Overlay;
      ghost var b := buffer[..bufferPos];
      OverlayTwice(fd.contents, offset, b, piece);
      forall i | 0 <= i < |piece| {
        buffer[bufferPos + i] := piece[i];
      }
      bufferPos := bufferPos + |piece|;
      accepted := accepted + piece;
      assert buffer[..bufferPos] == b + piece;
    }

    /** Write past the empty buffer, directly to the descriptor. */
    method WriteThrough(chunk: seq<Byte>) returns (rc: int)
      requires Valid() && lastOp == WriteOp && bufferPos == 0 && chunk != []
      modifies this, fd
      ensures Valid() && lastOp == WriteOp && bufferPos == 0 && rc <= |chunk|
      ensures rc <= 0 ==> SameFile() && fd.faults + fd.stalls > old(fd.faults + fd.stalls)
      ensures rc > 0 ==>
                && fd.stalls == old(fd.stalls) && fd.faults == old(fd.faults)
                && Contents() == Overlay(old(Contents()), old(Position()), chunk[..rc])
                && Position() == old(Position()) + rc && accepted == old(accepted) + chunk[..rc]
    {
      hide Overlay;
      assert buffer[..bufferPos] == [];
      OverlayNothing(fd.contents, offset);
      rc := fd.Write(chunk);
      if rc <= 0 {
        error := true;
      } else {
        offset := offset + rc;
        accepted := accepted + chunk[..rc];
      }
      assert buffer[..bufferPos] == [];
      OverlayNothing(fd.contents, offset);
    }

    /** The byte loop of fwrite: k bytes are accepted and appear in the logical file, in order, at
        the logical position; all of them unless a call fails. */
    method WriteBytes(data: seq<Byte>) returns (k: nat)
      requires Valid()
      modifies this, fd, buffer
      ensures k <= |data|
      ensures fd.stalls == old(fd.stalls) ==>
                && Valid() && (old(Clean()) ==> Clean())
                && Contents() == Overlay(old(Contents()), old(Position()), data[..k])
                && Position() == old(Position()) + k && accepted == old(accepted) + data[..k]
      ensures fd.stalls == old(fd.stalls) && fd.faults == old(fd.faults) && canWrite ==> k == |data|
      ensures !canWrite ==> k == 0
    {
      hide Overlay;
      hide Contents;
      hide Position;
      hide Conserved;
      k := 0;
      OverlayNothing(Contents(), Position());
      assert accepted + [] == accepted;
      var r := PrepareForWrite();
      if r < 0 {
        return;
      }
      while k < |data|
        invariant k <= |data|
        invariant Valid() && lastOp == WriteOp && fd.stalls == old(fd.stalls) && fd.faults == old(fd.faults)
        invariant Contents() == Overlay(old(Contents()), old(Position()), data[..k])
        invariant Position() == old(Position()) + k && accepted == old(accepted) + data[..k]
      {
        var n := WriteStep(data[k..]);
        if n <= 0 {
          break;
        }
        assert data[k..][..n] == data[k..k + n];
        OverlayPrefix(old(Contents()), old(Position()), data, k, k + n);
        k := k + n;
      }
    }

    /** One turn of the loop: make room if the buffer is full, then hand a large rest straight to the
        descriptor or copy what fits. */
    method WriteStep(rest: seq<Byte>) returns (n: int)
      requires Valid() && lastOp == WriteOp && rest != []
      modifies this, fd, buffer
      ensures lastOp == WriteOp && n <= |rest|
      ensures n > 0 ==>
                && Valid() && fd.stalls == old(fd.stalls) && fd.faults == old(fd.faults)
                && Contents() == Overlay(old(Contents()), old(Position()), rest[..n])
                && Position() == old(Position()) + n && accepted == old(accepted) + rest[..n]
      ensures n <= 0 ==> fd.faults + fd.stalls > old(fd.faults + fd.stalls)
      ensures n <= 0 && fd.stalls == old(fd.stalls) ==> Valid() && SameFile()
    {
      hide Overlay;
      hide Contents;
      hide Position;
      hide Conserved;
      var space := buffer.Length - bufferPos;
      if space == 0 {
        ghost var progress;
        var r;
        r, progress := FlushWrite();
        if r < 0 {
          return -1;
        }
        lastOp := WriteOp;
        space := buffer.Length;
      }
      if |rest| >= buffer.Length && bufferPos == 0 {
        n := WriteThrough(rest);
        return;
      }
      n := if |rest| < space then |rest| else space;
      Stash(rest[..n]);
    }

    /** fwrite: whole items out of the bytes accepted. */
    method Fwrite(data: seq<Byte>, size: nat, nmemb: nat) returns (n: nat, ghost k: nat)
      requires Valid() && |data| == size * nmemb
      modifies this, fd, buffer
      ensures k <= |data| && n == if size == 0 then 0 else k / size
      ensures fd.stalls == old(fd.stalls) ==>
                && Valid() && (old(Clean()) ==> Clean())
                && Contents() == Overlay(old(Contents()), old(Position()), data[..k])
                && Position() == old(Position()) + k && accepted == old(accepted) + data[..k]
      ensures (fd.stalls == old(fd.stalls) && fd.faults == old(fd.faults) && canWrite && |data| <= SIZE_MAX)
              ==> k == |data|
      ensures |data| > SIZE_MAX ==> k == 0 && error
      ensures !canWrite ==> k == 0
    {
      hide Overlay, Upcoming, Contents, Position, Clean, Shape, Conserved;
      n, k := 0, 0;
      OverlayNothing(Contents(), Position());
      assert accepted + [] == accepted;
      if size == 0 || nmemb == 0 {
        assert |data| == 0;
        return;
      }
      if size * nmemb > SIZE_MAX {
        MarkError();
        return;
      }
      var written := WriteBytes(data);
      n, k := written / size, written;
    }

    /** fflush on one stream. A writing stream keeps its logical file and position. A reading
        stream forgets its read-ahead without seeking back, so its position survives exactly when
        nothing was left unread. */
    method Fflush() returns (r: int)
      requires Valid()
      modifies this, fd, buffer
      ensures r == 0 || r == EOF
      ensures fd.stalls == old(fd.stalls) ==> Valid() && Contents() == old(Contents()) && accepted == old(accepted)
      ensures r == 0 ==> fd.stalls == old(fd.stalls) && lastOp == NoOp && Pending() == []
      ensures r == 0 ==> (Position() == old(Position()) <==> !(old(lastOp) == ReadOp && old(bufferPos < bufferEnd)))
      ensures r == EOF && fd.stalls == old(fd.stalls) ==> Position() == old(Position())
    {
      hide Overlay;
      OverlayNothing(fd.contents, offset);
      if lastOp == WriteOp {
        ghost var progress;
        r, progress := FlushWrite();
        if r < 0 {
          return EOF;
        }
        assert buffer[..bufferPos] == [];
        OverlayNothing(fd.contents, offset);
        lastOp := NoOp;
      } else if lastOp == ReadOp {
        bufferPos, bufferEnd := 0, 0;
        lastOp := NoOp;
      }
      r := 0;
    }

    /** ungetc: the byte becomes the next one read and the position steps back by one; the file
        itself is not changed. Only what was read since the last refill can be pushed back over. */
    method Ungetc(ch: int) returns (r: int)
      requires Valid()
      modifies this, buffer
      ensures Valid() && accepted == old(accepted) && Contents() == old(Contents())
      ensures r == EOF || r == ch
      ensures r == EOF <==> ch == EOF || old(lastOp) != ReadOp || old(bufferPos) == 0
      ensures r == EOF ==> Upcoming() == old(Upcoming()) && Position() == old(Position())
      ensures r != EOF ==> Upcoming() == [(ch % 256) as Byte] + old(Upcoming()) && Position() == old(Position()) - 1
      ensures r != EOF && old(Clean()) ==> (Clean() <==> (ch % 256) as Byte == fd.contents[Position()])
    {
      hide Overlay;
      OverlayNothing(fd.contents, offset);
      if ch == EOF {
        return EOF;
      }
      if lastOp != ReadOp {
        return EOF;
      }
      if bufferPos == 0 {
        return EOF;
      }
      var byte := (ch % 256) as Byte;
      bufferPos := bufferPos - 1;
      ghost var ahead, window := buffer[bufferPos + 1..bufferEnd], fd.contents[offset - bufferEnd..offset];
      buffer[bufferPos] := byte;
      eof := false;
      r := ch;
      assert buffer[bufferPos..bufferEnd] == [byte] + ahead;
      assert window[bufferPos] == fd.contents[Position()];
      assert buffer[..bufferEnd] == old(buffer[..bufferEnd])[bufferPos := byte];
    }

    // ----- whole runs -----

    ghost function Abstract(): Plain
      requires Shape()
      reads this, fd, buffer
    {
      Plain(Contents(), Position(), canRead, canWrite)
    }

    /** One call, with the observation its caller makes. */
    method Perform(op: Op) returns (seen: Observation)
      requires Valid() && Clean() && op.Sized()
      modifies this, fd, buffer
      ensures fd.stalls == old(fd.stalls) ==> Valid() && Clean()
      ensures fd.stalls == old(fd.stalls) && fd.faults == old(fd.faults) ==>
                (Abstract(), seen) == PlainStep(old(Abstract()), op)
    {
      hide Overlay;
      hide Upcoming;
      hide Contents;
      hide Position;
      hide Clean;
      hide Shape;
      hide Conserved;
      hide Tail;
      CleanUpcoming();
      match op
      case Read(size, nmemb) =>
        var n, data := Fread(size, nmemb);
        seen := SawRead(n, data);
        if fd.stalls == old(fd.stalls) && fd.faults == old(fd.faults) && canRead && size * nmemb <= SIZE_MAX {
          CleanUpcoming();
          TakeAll(old(Upcoming()), data, Upcoming(), size * nmemb);
        }
      case Write(data, size, nmemb) =>
        ghost var k;
        var n;
        n, k := Fwrite(data, size, nmemb);
        seen := SawWrite(n);
        assert data[..|data|] == data;
        OverlayNothing(old(Contents()), old(Position()));
      case Seek(delta, whence) =>
        var r := Fseek(delta, whence);
        seen := SawSeek(r);
      case Tell =>
        var position := Ftell();
        seen := SawTell(position);
    }

    /** Every interleaving of reads, writes, seeks and tells, with whatever short reads and short
        writes the descriptor chooses, shows its caller exactly what an unbuffered file shows and
        leaves exactly the file it would leave. The run ends early only if a call fails. */
    method Run(ops: seq<Op>) returns (seen: seq<Observation>)
      requires Valid() && Clean()
      requires forall i :: 0 <= i < |ops| ==> ops[i].Sized()
      modifies this, fd, buffer
      ensures fd.stalls == old(fd.stalls) ==> Valid() && Clean()
      ensures fd.stalls == old(fd.stalls) && fd.faults == old(fd.faults) ==>
                (Abstract(), seen) == PlainRun(old(Abstract()), ops)
    {
      hide PlainStep;
      hide Contents;
      hide Position;
      hide Clean;
      hide Shape;
      hide Conserved;
      seen := [];
      var stalls, faults := fd.stalls, fd.faults;
      for i := 0 to |ops|
        invariant fd.stalls == old(fd.stalls) && fd.faults == old(fd.faults)
        invariant Valid() && Clean()
        invariant (Abstract(), seen) == PlainRun(old(Abstract()), ops[..i])
      {
        assert ops[..i + 1][..i] == ops[..i];
        var s := Perform(ops[i]);
        seen := seen + [s];
        if fd.stalls != stalls || fd.faults != faults {
          return;
        }
      }
      assert ops[..|ops|] == ops;
    }

    /** One call, failed or not: what it did is what a call on a plain file may do. */
    method PerformAny(op: Op) returns (seen: Observation)
      requires Valid() && Clean() && op.Sized()
      modifies this, fd, buffer
      ensures fd.stalls == old(fd.stalls) ==> Valid() && Clean() && PlainMay(old(Abstract()), op, Abstract(), seen)
    {
      hide Overlay, Upcoming, Contents, Position, Clean, Shape, Conserved, Tail;
      CleanUpcoming();
      match op
      case Read(size, nmemb) =>
        var n, data := Fread(size, nmemb);
        seen := SawRead(n, data);
      case Write(data, size, nmemb) =>
        ghost var k;
        var n;
        n, k := Fwrite(data, size, nmemb);
        seen := SawWrite(n);
        assert k <= |data| && n == Items(k, size);
      case Seek(delta, whence) =>
        var r := Fseek(delta, whence);
        seen := SawSeek(r);
      case Tell =>
        var position := Ftell();
        seen := SawTell(position);
    }

    /** Every run, going on through failed calls: a plain file whose reads and writes may come up short
        and whose seeks may fail would show the same and be left the same. Only a write that returns 0
        ends the run. */
    method RunAny(ops: seq<Op>) returns (seen: seq<Observation>, ghost files: seq<Plain>)
      requires Valid() && Clean()
      requires forall i :: 0 <= i < |ops| ==> ops[i].Sized()
      modifies this, fd, buffer
      ensures fd.stalls == old(fd.stalls) ==>
                && Valid() && Clean() && |seen| == |ops| == |files| - 1
                && files[0] == old(Abstract()) && files[|ops|] == Abstract()
                && forall i :: 0 <= i < |ops| ==> PlainMay(files[i], ops[i], files[i + 1], seen[i])
    {
      hide PlainMay, Contents, Position, Clean, Shape, Conserved;
      seen, files := [], [Abstract()];
      var stalls := fd.stalls;
      for i := 0 to |ops|
        invariant fd.stalls == stalls == old(fd.stalls)
        invariant Valid() && Clean() && |seen| == i == |files| - 1
        invariant files[0] == old(Abstract()) && files[i] == Abstract()
        invariant forall j :: 0 <= j < i ==> PlainMay(files[j], ops[j], files[j + 1], seen[j])
      {
        var s := PerformAny(ops[i]);
        seen := seen + [s];
        if fd.stalls != stalls {
          return;
        }
        files := files + [Abstract()];
      }
    }

    /** Every run of fwrite and fflush, through short and failed writes: what the calls took, in
        order, is what the descriptor received followed by what is still in the buffer. The run goes
        on after a failure; only a write that returns 0 ends it. */
    method RunOutput(ops: seq<Output>) returns (ghost taken: seq<seq<Byte>>)
      requires Valid() && forall i :: 0 <= i < |ops| ==> ops[i].Sized()
      modifies this, fd, buffer
      ensures fd.stalls == old(fd.stalls) ==>
                && Valid() && accepted == fd.delivered + Pending()
                && accepted == old(accepted) + Flat(taken)
                && |taken| == |ops| && forall i :: 0 <= i < |ops| ==> ops[i].Took(taken[i])
    {
      hide Overlay, Contents, Position, Shape, Pending;
      taken := [];
      assert accepted + Flat(taken) == accepted;
      var stalls := fd.stalls;
      for i := 0 to |ops|
        invariant fd.stalls == stalls == old(fd.stalls)
        invariant Valid() && accepted == old(accepted) + Flat(taken)
        invariant |taken| == i && forall j :: 0 <= j < i ==> ops[j].Took(taken[j])
      {
        ghost var piece, k := [], 0;
        match ops[i] {
          case Put(data, size, nmemb) =>
            var n;
            n, k := Fwrite(data, size, nmemb);
            piece := data[..k];
          case Flush =>
            var r := Fflush();
        }
        if fd.stalls != stalls {
          return;
        }
        assert (taken + [piece])[..|taken|] == taken;
        assert old(accepted) + Flat(taken) + piece == old(accepted) + (Flat(taken) + piece);
        taken := taken + [piece];
      }
    }
  }

  lemma StalledBooks(d: seq<Byte>, b: seq<Byte>, done: nat)
    requires done <= |b|
    ensures d + b == d + b[..done] + b <==> done == 0
  {
    if done == 0 {
      assert d + b[..done] == d;
    } else {
      assert |d + b[..done] + b| > |d + b|;
    }
  }

  lemma FlushedBooks(d: seq<Byte>, b: seq<Byte>, done: nat)
    requires done <= |b|
    ensures d + b == d + b[..done] + b[done..|b|] && b[..|b|] == b
  {
    assert b == b[..done] + b[done..|b|];
  }

  /** What a run of fwrite and fflush calls consists of. */
  datatype Output = Put(data: seq<Byte>, size: nat, nmemb: nat) | Flush
  {
    predicate Sized() { Put? ==> |data| == size * nmemb }

    /** What a call can have added to the accepted bytes. */
    predicate Took(piece: seq<Byte>) { if Put? then piece <= data else piece == [] }
  }

  function Flat(pieces: seq<seq<Byte>>): seq<Byte> {
    if pieces == [] then [] else Flat(pieces[..|pieces| - 1]) + pieces[|pieces| - 1]
  }

  /** A file without a buffer, opened for some of reading and writing. */
  datatype Plain = Plain(contents: seq<Byte>, position: nat, canRead: bool, canWrite: bool)
  {
    function Written(data: seq<Byte>): Plain {
      this.(contents := Overlay(contents, position, data), position := position + |data|)
    }
  }

  datatype Op =
    | Read(size: nat, nmemb: nat)
    | Write(data: seq<Byte>, size: nat, nmemb: nat)
    | Seek(delta: int, whence: Whence)
    | Tell
  {
    predicate Sized() {
      match this
      case Write(data, size, nmemb) => |data| == size * nmemb
      case _ => true
    }
  }

  datatype Observation = SawRead(n: nat, data: seq<Byte>) | SawWrite(n: nat) | SawSeek(r: int) | SawTell(position: int)

  function Items(bytes: nat, size: nat): nat { if size == 0 then 0 else bytes / size }

  /** A request the file was not opened for, or of more bytes than a size holds, does nothing. */
  function PlainStep(p: Plain, op: Op): (Plain, Observation) {
    match op
    case Read(size, nmemb) =>
      var rest := if p.canRead && size * nmemb <= SIZE_MAX then Tail(p.contents, p.position) else [];
      var data := if |rest| <= size * nmemb then rest else rest[..size * nmemb];
      (p.(position := p.position + |data|), SawRead(Items(|data|, size), data))
    case Write(data, size, nmemb) =>
      if p.canWrite && |data| <= SIZE_MAX then
        (p.Written(data), SawWrite(Items(|data|, size)))
      else (p, SawWrite(0))
    case Seek(delta, whence) =>
      var target := SeekTarget(p.contents, p.position, delta, whence);
      if target < 0 then (p, SawSeek(-1)) else (p.(position := target), SawSeek(0))
    case Tell => (p, SawTell(p.position))
  }

  /** What a call on a plain file may do when transfers can fall short and seeks can fail: a read
      delivers some of the bytes at the position, a write takes some of its bytes. */
  ghost predicate PlainMay(p: Plain, op: Op, q: Plain, seen: Observation) {
    match op
    case Read(size, nmemb) =>
      && seen.SawRead? && |seen.data| <= size * nmemb && seen.n == Items(|seen.data|, size)
      && seen.data <= Tail(p.contents, p.position)
      && q == p.(position := p.position + |seen.data|)
    case Write(data, size, nmemb) =>
      exists k :: 0 <= k <= |data| && seen == SawWrite(Items(k, size)) && q == p.Written(data[..k])
    case Seek(delta, whence) =>
      var target := SeekTarget(p.contents, p.position, delta, whence);
      (seen == SawSeek(-1) && q == p) || (target >= 0 && seen == SawSeek(0) && q == p.(position := target))
    case Tell => q == p && seen == SawTell(p.position)
  }

  function PlainRun(p: Plain, ops: seq<Op>): (Plain, seq<Observation>) {
    if ops == [] then (p, [])
    else
      var (q, seen) := PlainRun(p, ops[..|ops| - 1]);
      var (r, s) := PlainStep(q, ops[|ops| - 1]);
      (r, seen + [s])
  }

  lemma TakeAll(whole: seq<Byte>, data: seq<Byte>, rest: seq<Byte>, n: nat)
    requires whole == data + rest && |data| <= n
    requires |data| < n ==> rest == []
    ensures data == if |whole| <= n then whole else whole[..n]
  {
  }
}
