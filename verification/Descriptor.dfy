/** The file behind a stream: what `read`, `write` and `lseek` may do to a seekable file. */
module Descriptor {

  newtype Byte = x: int | 0 <= x < 256

  datatype Whence = Set | Cur | End

  /** Bytes written at a position: zeros fill a gap, anything beyond stays. */
  function Overlay(c: seq<Byte>, p: nat, d: seq<Byte>): seq<Byte> {
    if d == [] then c
    else Padded(c, p)[..p] + d + (if p + |d| < |c| then c[p + |d|..] else [])
  }

  function Padded(c: seq<Byte>, p: nat): (r: seq<Byte>)
    ensures |r| >= p
  {
    if |c| >= p then c else c + seq(p - |c|, _ => 0)
  }

  /** The bytes from a position to the end of the file. */
  function Tail(c: seq<Byte>, p: nat): seq<Byte> {
    if p < |c| then c[p..] else []
  }

  function SeekTarget(c: seq<Byte>, p: nat, offset: int, whence: Whence): int {
    match whence
    case Set => offset
    case Cur => p + offset
    case End => |c| + offset
  }

  /** Writing in two pieces is writing the whole. */
  lemma OverlayTwice(c: seq<Byte>, p: nat, a: seq<Byte>, b: seq<Byte>)
    ensures Overlay(Overlay(c, p, a), p + |a|, b) == Overlay(c, p, a + b)
  {
    if a == [] {
      assert a + b == b;
    } else if b == [] {
      assert a + b == a;
    }
  }

  /** What a write means byte by byte: the new bytes where they were put, zeros in a gap, and the
      old bytes everywhere else. */
  lemma OverlayAt(c: seq<Byte>, p: nat, d: seq<Byte>, i: nat)
    requires d != [] && i < |Overlay(c, p, d)|
    ensures |Overlay(c, p, d)| == if p + |d| > |c| then p + |d| else |c|
    ensures Overlay(c, p, d)[i] == if p <= i < p + |d| then d[i - p] else if i < |c| then c[i] else 0
  {
  }

  lemma OverlayNothing(c: seq<Byte>, p: nat)
    ensures Overlay(c, p, []) == c
  {
  }

  /** A non-empty prefix of the tail is a piece of the file, and the tail moves past it. */
  lemma TailPrefix(c: seq<Byte>, p: nat, d: seq<Byte>)
    requires d <= Tail(c, p) && d != []
    ensures p + |d| <= |c| && c[p..p + |d|] == d
    ensures Tail(c, p) == d + Tail(c, p + |d|)
  {
  }

  /** Extending the written prefix of b from i to j. */
  lemma OverlayPrefix(c: seq<Byte>, p: nat, b: seq<Byte>, i: nat, j: nat)
    requires i <= j <= |b|
    ensures Overlay(Overlay(c, p, b[..i]), p + i, b[i..j]) == Overlay(c, p, b[..j])
    ensures b[..i] + b[i..j] == b[..j]
  {
    OverlayTwice(c, p, b[..i], b[i..j]);
    assert b[..i] + b[i..j] == b[..j];
  }

  /** An open descriptor on a seekable file. Reads and writes may be short, and any call may
      fail; `faults` counts the failures, `stalls` the writes that returned 0, and `delivered`
      logs every byte a write took. */
  class Descriptor {
    var contents: seq<Byte>
    var pos: nat
    var faults: nat
    var stalls: nat
    ghost var delivered: seq<Byte>

    method Read(n: nat) returns (rc: int, data: seq<Byte>)
      requires n > 0
      modifies this`pos, this`faults
      ensures rc < 0 ==> pos == old(pos) && faults == old(faults) + 1 && data == []
      ensures rc >= 0 ==> faults == old(faults) && rc == |data| <= n && pos == old(pos) + rc
      ensures rc >= 0 ==> data <= Tail(contents, old(pos))
      ensures rc == 0 ==> Tail(contents, pos) == []
    {
      var fails: bool := *;
      if fails {
        faults := faults + 1;
        return -1, [];
      }
      if pos >= |contents| {
        return 0, [];
      }
      var k :| 1 <= k <= n && k <= |contents| - pos;
      data := contents[pos..pos + k];
      rc, pos := k, pos + k;
    }

    method Write(data: seq<Byte>) returns (rc: int)
      requires data != []
      modifies this
      ensures rc <= 0 ==> pos == old(pos) && contents == old(contents) && delivered == old(delivered)
      ensures rc < 0 ==> faults == old(faults) + 1 && stalls == old(stalls)
      ensures rc == 0 ==> faults == old(faults) && stalls == old(stalls) + 1
      ensures rc > 0 ==>
                && faults == old(faults) && stalls == old(stalls)
                && rc <= |data| && pos == old(pos) + rc
                && contents == Overlay(old(contents), old(pos), data[..rc])
                && delivered == old(delivered) + data[..rc]
    {
      rc :| rc <= |data|;
      if rc < 0 {
        faults := faults + 1;
      } else if rc == 0 {
        stalls := stalls + 1;
      } else {
        contents := Overlay(contents, pos, data[..rc]);
        delivered := delivered + data[..rc];
        pos := pos + rc;
      }
    }

    method Lseek(offset: int, whence: Whence) returns (rc: int)
      modifies this`pos, this`faults
      ensures rc >= 0 ==> pos == rc == SeekTarget(contents, old(pos), offset, whence) && faults == old(faults)
      ensures rc < 0 ==> pos == old(pos)
      ensures rc < 0 ==>
                faults == old(faults) + if SeekTarget(contents, pos, offset, whence) < 0 then 0 else 1
    {
      rc := SeekTarget(contents, pos, offset, whence);
      if rc < 0 {
        return -1;
      }
      var fails: bool := *;
      if fails {
        faults := faults + 1;
        return -1;
      }
      pos := rc;
    }
  }
}
