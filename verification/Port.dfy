/** Buffered binary ports (src/port.c): an input-only and an output-only port over a source and a sink. */
module Port {
  type Byte = b: int | 0 <= b < 256

  const NEWLINE: Byte := 10

  function Min(a: nat, b: nat): nat {
    if a < b then a else b
  }

  /** A source that hands out its bytes in chunks of any size; `chunk` is the pattern of its short reads.  It
      returns no bytes only at the end, or when asked for none. */
  class Source {
    const chunk: nat -> nat
    var calls: nat
    var rest: seq<Byte>

    constructor (bytes: seq<Byte>, chunk: nat -> nat)
      ensures rest == bytes
    {
      this.chunk, calls, rest := chunk, 0, bytes;
    }

    method Readb(buffer: array<Byte>, size: nat) returns (n: nat)
      requires size <= buffer.Length
      modifies this, buffer
      ensures n <= size && n <= |old(rest)| && (n == 0 <==> size == 0 || old(rest) == [])
      ensures buffer[..n] == old(rest)[..n] && rest == old(rest)[n..]
    {
      n := Min(size, Min(|rest|, chunk(calls) + 1));
      for i := 0 to n
        invariant rest == old(rest) && buffer[..i] == rest[..i]
      {
        buffer[i] := rest[i];
      }
      rest, calls := rest[n..], calls + 1;
    }
  }

  /** A sink that may take fewer bytes than offered, but at least one. */
  class Sink {
    const chunk: nat -> nat
    var calls: nat
    var delivered: seq<Byte>

    constructor (chunk: nat -> nat)
      ensures delivered == []
    {
      this.chunk, calls, delivered := chunk, 0, [];
    }

    method Writeb(buffer: array<Byte>, from: nat, size: nat) returns (n: nat)
      requires from + size <= buffer.Length && size > 0
      modifies this
      ensures 0 < n <= size && delivered == old(delivered) + buffer[from..from + n]
    {
      n := Min(size, chunk(calls) + 1);
      delivered, calls := delivered + buffer[from..from + n], calls + 1;
    }
  }

  /** `memcpy64` */
  method Memcpy(dst: array<Byte>, to: nat, src: array<Byte>, from: nat, n: nat)
    requires dst != src && to + n <= dst.Length && from + n <= src.Length
    modifies dst
    ensures dst[..to + n] == old(dst[..to]) + src[from..from + n] && dst[to + n..] == old(dst[to + n..])
  {
    for k := 0 to n
      invariant dst[..to + k] == old(dst[..to]) + src[from..from + k] && dst[to + k..] == old(dst[to + k..])
    {
      dst[to + k] := src[from + k];
      assert src[from..from + k + 1] == src[from..from + k] + [src[from + k]];
      assert dst[..to + k + 1] == dst[..to + k] + [src[from + k]];
    }
  }

  lemma TakeMore(all: seq<Byte>, n: nat, ahead: seq<Byte>, m: nat)
    requires n <= |all| && ahead == all[n..] && m <= |ahead|
    ensures n + m <= |all| && all[..n] + ahead[..m] == all[..n + m] && ahead[m..] == all[n + m..]
  {
  }

  // ----- input -----

  class InputPort {
    const src: Source
    const buffer: array<Byte>
    var index: nat
    var bufferSize: nat
    var position: nat

    ghost predicate Valid()
      reads this
    {
      buffer.Length > 0 && index <= bufferSize <= buffer.Length
    }

    /** All bytes that can still be read: what is buffered, then what the source still has. */
    ghost function Ahead(): seq<Byte>
      requires Valid()
      reads this, buffer, src
    {
      buffer[index..bufferSize] + src.rest
    }

    constructor (src: Source, size: nat)
      requires size > 0
      ensures Valid() && this.src == src && fresh(buffer) && Ahead() == src.rest && position == 0
    {
      this.src := src;
      buffer := new Byte[size](_ => 0);
      index, bufferSize, position := 0, 0, 0;
    }

    /** `buffered_fill_buffer`: one read of the source into the whole buffer. */
    method FillBuffer()
      requires Valid() && index == bufferSize
      modifies this`index, this`bufferSize, buffer, src
      ensures Valid() && Ahead() == old(Ahead()) && index == 0
      ensures bufferSize == 0 <==> old(Ahead()) == []
    {
      var result := src.Readb(buffer, buffer.Length);
      bufferSize := result;
      index := 0;
    }

    /** Copies the next `m` buffered bytes. */
    method Hand(dest: array<Byte>, n: nat, m: nat, ghost all: seq<Byte>)
      requires Valid() && dest != buffer && n + m <= dest.Length && m <= bufferSize - index
      requires n <= |all| && dest[..n] == all[..n] && Ahead() == all[n..]
      modifies this`index, dest
      ensures Valid() && index == old(index) + m && n + m <= |all| && dest[..n + m] == all[..n + m]
          && Ahead() == all[n + m..]
    {
      TakeMore(all, n, Ahead(), m);
      assert Ahead()[..m] == buffer[index..index + m];
      assert Ahead()[m..] == buffer[index + m..bufferSize] + src.rest;
      Memcpy(dest, n, buffer, index, m);
      index := index + m;
    }

    /** `buffered_readb`: exactly the next bytes of the stream, fewer than asked only at its end. */
    method Readb(dest: array<Byte>, req: nat) returns (n: nat)
      requires Valid() && req <= dest.Length && dest != buffer
      modifies this, buffer, src, dest
      ensures Valid() && n == Min(req, |old(Ahead())|)
      ensures dest[..n] == old(Ahead())[..n] && Ahead() == old(Ahead())[n..] && position == old(position) + n
    {
      n := 0;
      ghost var all := Ahead();
      while n < req
        invariant Valid() && n <= req && n <= |all| && dest[..n] == all[..n] && Ahead() == all[n..]
            && position == old(position)
        decreases req - n, if bufferSize == index then 1 else 0
      {
        var have, want := bufferSize - index, req - n;
        if have >= want {
          Hand(dest, n, want, all);
          n := n + want;
          break;
        }
        Hand(dest, n, have, all);
        n := n + have;
        FillBuffer();
        if bufferSize == 0 {
          break;
        }
      }
      position := position + n;
    }
  }

  // ----- output -----

  class OutputPort {
    const src: Sink
    const buffer: array<Byte>
    var index: nat
    var dirty: bool
    var position: nat

    ghost predicate Valid()
      reads this
    {
      buffer.Length > 0 && index <= buffer.Length
    }

    /** Everything written so far: what the sink has, then what is buffered. */
    ghost function Written(): seq<Byte>
      requires Valid()
      reads this, buffer, src
    {
      src.delivered + buffer[..index]
    }

    constructor (src: Sink, size: nat)
      requires size > 0
      ensures Valid() && this.src == src && fresh(buffer) && Written() == src.delivered && position == 0
    {
      this.src := src;
      buffer := new Byte[size](_ => 0);
      index, dirty, position := 0, false, 0;
    }

    /** `buffered_flush`: offers the buffer until the sink has taken all of it. */
    method Flush()
      requires Valid()
      modifies this`index, this`dirty, src
      ensures Valid() && index == 0 && Written() == old(Written()) == src.delivered
    {
      var from := 0;
      ghost var end := index;
      while index > 0
        invariant from + index == end && src.delivered == old(src.delivered) + buffer[..from]
      {
        var w := src.Writeb(buffer, from, index);
        from := from + w;
        index := index - w;
      }
      index, dirty := 0, false;
    }

    /** Buffers `m` bytes. */
    method Store(v: array<Byte>, n: nat, m: nat)
      requires Valid() && v != buffer && n + m <= v.Length && m <= buffer.Length - index
      modifies this`index, buffer
      ensures Valid() && index == old(index) + m && Written() == old(Written()) + v[n..n + m]
    {
      Memcpy(buffer, index, v, n, m);
      index := index + m;
    }

    lemma Joined(v: array<Byte>, n: nat, m: nat, before: seq<Byte>)
      requires n + m <= v.Length
      ensures before + v[..n] + v[n..n + m] == before + v[..n + m]
    {
    }

    /** `buffered_write_to_block_buffer`: takes everything, flushing whenever the buffer is full. */
    method WriteBlock(v: array<Byte>, req: nat) returns (n: nat)
      requires Valid() && req <= v.Length && v != buffer
      modifies this, buffer, src
      ensures Valid() && n == req && Written() == old(Written()) + v[..req] && position == old(position) + req
    {
      n := 0;
      if !dirty {
        dirty := req > 0;
      }
      while n < req
        invariant Valid() && n <= req && Written() == old(Written()) + v[..n] && position == old(position)
        decreases req - n, index
      {
        var room, left := buffer.Length - index, req - n;
        if room >= left {
          Joined(v, n, left, old(Written()));
          Store(v, n, left);
          n := n + left;
        } else {
          Joined(v, n, room, old(Written()));
          Store(v, n, room);
          n := n + room;
          Flush();
        }
      }
      position := position + n;
    }

    /** `buffered_write_to_line_buffer`: also flushes after every newline, so that only an unfinished line
        stays in the buffer. */
    method WriteLine(v: array<Byte>, req: nat) returns (n: nat)
      requires Valid() && req <= v.Length && v != buffer
      modifies this, buffer, src
      ensures Valid() && n == req && Written() == old(Written()) + v[..req] && position == old(position) + req
      ensures NEWLINE !in old(buffer[..index]) ==> NEWLINE !in buffer[..index]
    {
      n := 0;
      if !dirty {
        dirty := req > 0;
      }
      while n < req
        invariant Valid() && n <= req && Written() == old(Written()) + v[..n] && position == old(position)
        invariant NEWLINE !in old(buffer[..index]) ==> NEWLINE !in buffer[..index]
      {
        if index == buffer.Length {
          Flush();
        }
        Joined(v, n, 1, old(Written()));
        buffer[index] := v[n];
        index, n := index + 1, n + 1;
        assert buffer[..index] == buffer[..index - 1] + v[n - 1..n];
        if buffer[index - 1] == NEWLINE {
          Flush();
        }
      }
      position := position + n;
    }
  }
}
