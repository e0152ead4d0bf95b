/** Files as the operating system holds them, and the buffer a writer keeps in front. */
module Disk {
  import opened Bytes

  /** `data` after `b` is written at `pos`; a gap past the end reads as zeros. */
  function Overlay(data: seq<Byte>, pos: nat, b: seq<Byte>): (r: seq<Byte>)
    ensures |r| == if pos + |b| < |data| then |data| else pos + |b|
    ensures r[pos..pos + |b|] == b
    ensures pos <= |data| ==> r[..pos] == data[..pos]
  {
    var front := if pos <= |data| then data[..pos] else data + Zeros(pos - |data|);
    front + b + (if pos + |b| < |data| then data[pos + |b|..] else [])
  }

  predicate Suffix(t: seq<Byte>, s: seq<Byte>) {
    |t| <= |s| && t == s[|s| - |t|..]
  }

  class File {
    var data: seq<Byte>
    var pos: nat

    constructor (content: seq<Byte>)
      ensures data == content && pos == 0
    {
      data, pos := content, 0;
    }

    method Seek(p: nat)
      modifies this`pos
      ensures pos == p
    {
      pos := p;
    }

    /** `read_exact`: all of `n` bytes, or `UnexpectedEof` when the file ends first. */
    method ReadExact(n: nat) returns (r: Option<seq<Byte>>)
      modifies this`pos
      ensures r == if old(pos) + n <= |data| then Some(data[old(pos)..old(pos) + n]) else None
      ensures r.Some? ==> pos == old(pos) + n
    {
      if pos + n <= |data| {
        r := Some(data[pos..pos + n]);
        pos := pos + n;
      } else {
        r := None;
      }
    }

    /** `read`: some of what is left, up to `max` bytes; nothing only at the end. */
    method Read(max: nat) returns (r: seq<Byte>)
      requires max > 0
      modifies this`pos
      ensures |r| <= max && (r != [] ==> old(pos) + |r| <= |data|)
      ensures r == [] <==> old(pos) >= |data|
      ensures r != [] ==> r == data[old(pos)..old(pos) + |r|] && pos == old(pos) + |r|
      ensures r == [] ==> pos == old(pos)
    {
      if pos >= |data| {
        return [];
      }
      var most := if |data| - pos <= max then |data| - pos else max;
      var n :| 1 <= n <= most;
      r := data[pos..pos + n];
      pos := pos + n;
    }

    method WriteAll(b: seq<Byte>)
      modifies this
      ensures data == Overlay(old(data), old(pos), b)
      ensures pos == old(pos) + |b|
    {
      data := Overlay(data, pos, b);
      pos := pos + |b|;
    }

    /** `set_len` to a length at or past the end, or a cut. */
    method SetLen(n: nat)
      modifies this`data
      ensures data == if n <= |old(data)| then old(data)[..n] else old(data) + Zeros(n - |old(data)|)
    {
      data := if n <= |data| then data[..n] else data + Zeros(n - |data|);
    }
  }

  /** `BufWriter<File>`, the file moved into it: whatever is written reaches the file in
      order, but when is the buffer's own affair, so each write drains an arbitrary amount. */
  class BufWriter {
    var data: seq<Byte>
    var pos: nat
    var buf: seq<Byte>

    constructor (file: File)
      ensures data == file.data && pos == file.pos && buf == []
    {
      data, pos, buf := file.data, file.pos, [];
    }

    ghost predicate Valid()
      reads this
    {
      pos <= |data|
    }

    /** Everything written so far: the file up to the cursor, then the buffer. */
    ghost function Stream(): seq<Byte>
      reads this
      requires Valid()
    {
      data[..pos] + buf
    }

    /** The old bytes of the file the cursor has not reached yet. */
    ghost function Ahead(): seq<Byte>
      reads this
      requires Valid()
    {
      data[pos..]
    }

    method Drain(k: nat)
      requires Valid() && k <= |buf|
      modifies this
      ensures Valid()
      ensures Stream() == old(Stream())
      ensures pos == old(pos) + k
      ensures buf == old(buf)[k..]
      ensures Suffix(Ahead(), old(Ahead()))
    {
      ghost var data0, pos0, buf0 := data, pos, buf;
      data := Overlay(data, pos, buf[..k]);
      pos := pos + k;
      buf := buf[k..];
      assert data[..pos0 + k] == data0[..pos0] + buf0[..k];
      assert buf0 == buf0[..k] + buf0[k..];
      assert data0[..pos0] + buf0 == data0[..pos0] + buf0[..k] + buf0[k..];
      if pos0 + k < |data0| {
        assert data[pos0 + k..] == data0[pos0 + k..] == data0[pos0..][k..];
      }
    }

    method WriteAll(b: seq<Byte>)
      requires Valid()
      modifies this
      ensures Valid()
      ensures Stream() == old(Stream()) + b
      ensures pos >= old(pos)
      ensures Suffix(Ahead(), old(Ahead()))
    {
      buf := buf + b;
      assert Stream() == old(Stream()) + b;
      var k :| 0 <= k <= |buf|;
      Drain(k);
    }

    method Flush()
      requires Valid()
      modifies this
      ensures Valid() && buf == []
      ensures Stream() == old(Stream()) && pos == |Stream()|
      ensures Suffix(Ahead(), old(Ahead()))
    {
      Drain(|buf|);
    }
  }
}
