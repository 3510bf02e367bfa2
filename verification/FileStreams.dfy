/** `FileReadStream` (filereadstream.h) and `FileWriteStream` (filewritestream.h). */
module FileStreams {
  import opened Bytes

  /** Reads a file in blocks: the bytes of the file, and zeros for ever. */
  class FileReadStream {
    const file: Text
    const buffer: array<Byte>
    /** Where `fread` goes on in the file. */
    var filePos: nat
    /** The last byte that can be peeked; -1 before the first block. */
    var bufferLast: int
    var current: nat
    var readCount: nat
    var count: nat
    var eof: bool

    ghost predicate Valid()
      reads this, buffer
    {
      && buffer.Length >= 4
      && count + readCount == filePos <= |file| && readCount <= buffer.Length
      && (forall i :: 0 <= i < readCount ==> buffer[i] == file[count + i])
      && current <= bufferLast < buffer.Length
      && if eof then filePos == |file| && bufferLast == readCount < buffer.Length && buffer[readCount] == 0
         else bufferLast == readCount - 1 && readCount == buffer.Length
    }

    constructor (file: Text, buffer: array<Byte>)
      requires buffer.Length >= 4
      modifies buffer
      ensures Valid() && this.file == file && this.buffer == buffer && Tell() == 0
    {
      this.file, this.buffer := file, buffer;
      filePos, bufferLast, current, readCount, count, eof := 0, -1, 0, 0, 0, false;
      new;
      Refill();
    }

    /** The bytes taken so far; it stays at the end of the file. */
    function Tell(): nat
      reads this
    {
      count + current
    }

    method Peek() returns (c: Byte)
      requires Valid()
      ensures c == At(file, Tell())
    {
      c := buffer[current];
    }

    /** `Read` when the block is used up: `fread`, and a NUL behind the last block. */
    method Refill()
      requires buffer.Length >= 4 && !eof && filePos == count + readCount <= |file|
      modifies this, buffer
      ensures Valid() && Tell() == old(filePos)
    {
      count := count + readCount;
      readCount := if |file| - filePos < buffer.Length then |file| - filePos else buffer.Length;
      forall i | 0 <= i < readCount { buffer[i] := file[filePos + i]; }
      filePos := filePos + readCount;
      bufferLast := readCount - 1;
      current := 0;
      if readCount < buffer.Length {
        buffer[readCount] := 0;
        bufferLast := bufferLast + 1;
        eof := true;
      }
    }

    method Read()
      requires Valid()
      modifies this, buffer
      ensures Valid() && Tell() == (if old(Tell()) < |file| then old(Tell()) + 1 else |file|)
    {
      if current < bufferLast {
        current := current + 1;
      } else if !eof {
        Refill();
      }
    }

    method Take() returns (c: Byte)
      requires Valid()
      modifies this, buffer
      ensures Valid() && c == At(file, old(Tell()))
      ensures Tell() == if old(Tell()) < |file| then old(Tell()) + 1 else |file|
    {
      c := buffer[current];
      Read();
    }

    /** The next four bytes, for encoding detection. At the beginning of the stream it
        gives none exactly if the file is shorter, or the buffer has the minimal size. */
    method Peek4() returns (r: Option<Text>)
      requires Valid()
      ensures r.Some? ==> Tell() + 4 <= |file| && r.value == file[Tell()..Tell() + 4]
      ensures Tell() == 0 ==> (r.Some? <==> |file| >= 4 && buffer.Length >= 5)
    {
      r := if current + 4 <= bufferLast then Some(buffer[current..current + 4]) else None;
    }

    /** Any number of calls of `Take` gives the file and then zeros. */
    method TakeAll(n: nat) returns (s: Text)
      requires Valid()
      modifies this, buffer
      ensures Valid() && |s| == n
      ensures forall i :: 0 <= i < n ==> s[i] == At(file, old(Tell()) + i)
      ensures Tell() == if old(Tell()) + n < |file| then old(Tell()) + n else |file|
    {
      s := [];
      TellInFile();
      for i := 0 to n
        invariant Valid() && |s| == i
        invariant forall j :: 0 <= j < i ==> s[j] == At(file, old(Tell()) + j)
        invariant Tell() == if old(Tell()) + i < |file| then old(Tell()) + i else |file|
      {
        var c := Take();
        s := s + [c];
      }
    }

    lemma TellInFile()
      requires Valid()
      ensures Tell() <= |file|
    {
    }
  }

  /** What a write stream has passed on to the file, and what waits in its buffer. */
  datatype Sink = Sink(file: Text, pending: Text)

  function Flushed(w: Sink): Sink {
    Sink(w.file + w.pending, [])
  }

  /** One byte, with a buffer of `size` bytes. */
  function PutOne(w: Sink, size: nat, c: Byte): Sink {
    var v := if |w.pending| >= size then Flushed(w) else w;
    v.(pending := v.pending + [c])
  }

  /** `n` single calls of `Put`. */
  function PutMany(w: Sink, size: nat, c: Byte, n: nat): Sink
    decreases n
  {
    if n == 0 then w else PutMany(PutOne(w, size, c), size, c, n - 1)
  }

  /** Nothing is lost: the file with the pending bytes is all that was put. */
  lemma {:induction false} NothingLost(w: Sink, size: nat, c: Byte, n: nat)
    ensures var v := PutMany(w, size, c, n);
            v.file + v.pending == w.file + w.pending + Repeat(c, n)
    decreases n
  {
    if n > 0 {
      NothingLost(PutOne(w, size, c), size, c, n - 1);
      assert Repeat(c, n) == [c] + Repeat(c, n - 1);
    }
  }

  lemma OneKept(w: Sink, size: nat, c: Byte)
    ensures PutOne(w, size, c).file + PutOne(w, size, c).pending == w.file + w.pending + [c]
  {
  }

  /** As many bytes as there is room for only lengthen the buffer. */
  lemma {:induction false} Fills(w: Sink, size: nat, c: Byte, n: nat)
    requires |w.pending| + n <= size
    ensures PutMany(w, size, c, n) == w.(pending := w.pending + Repeat(c, n))
    decreases n
  {
    if n == 0 {
      assert w.pending + Repeat(c, 0) == w.pending;
    } else {
      Fills(PutOne(w, size, c), size, c, n - 1);
      assert Repeat(c, n) == [c] + Repeat(c, n - 1);
      assert w.pending + [c] + Repeat(c, n - 1) == w.pending + Repeat(c, n);
    }
  }

  lemma {:induction false} PutManySplit(w: Sink, size: nat, c: Byte, m: nat, n: nat)
    ensures PutMany(w, size, c, m + n) == PutMany(PutMany(w, size, c, m), size, c, n)
    decreases m
  {
    if m > 0 { PutManySplit(PutOne(w, size, c), size, c, m - 1, n); }
  }

  /** Filling the buffer, flushing it and going on is what single calls do. */
  lemma FillFlush(w: Sink, size: nat, c: Byte, n: nat)
    requires size > 0 && |w.pending| <= size && n > size - |w.pending|
    ensures var avail := size - |w.pending|;
            PutMany(w, size, c, n)
            == PutMany(Flushed(w.(pending := w.pending + Repeat(c, avail))), size, c, n - avail)
  {
    var avail := size - |w.pending|;
    Fills(w, size, c, avail);
    PutManySplit(w, size, c, avail, n - avail);
    var full := w.(pending := w.pending + Repeat(c, avail));
    assert PutOne(full, size, c) == PutOne(Flushed(full), size, c);
  }

  class FileWriteStream {
    var file: Text
    const buffer: array<Byte>
    var current: nat

    ghost predicate Valid()
      reads this
    {
      current <= buffer.Length && buffer.Length > 0
    }

    ghost function State(): Sink
      reads this, buffer
      requires Valid()
    {
      Sink(file, buffer[..current])
    }

    constructor (buffer: array<Byte>)
      requires buffer.Length > 0
      ensures Valid() && this.buffer == buffer && State() == Sink([], [])
    {
      this.buffer, file, current := buffer, [], 0;
    }

    method Put(c: Byte)
      requires Valid()
      modifies this, buffer
      ensures Valid() && State() == PutOne(old(State()), buffer.Length, c)
    {
      if current >= buffer.Length {
        Flush();
      }
      buffer[current] := c;
      current := current + 1;
    }

    method Flush()
      requires Valid()
      modifies this
      ensures Valid() && State() == Flushed(old(State()))
    {
      if current != 0 {
        file := file + buffer[..current];
        current := 0;
      }
    }

    method Memset(c: Byte, n: nat)
      requires Valid() && current + n <= buffer.Length
      modifies this`current, buffer
      ensures Valid() && State() == Sink(file, old(State()).pending + Repeat(c, n))
    {
      forall i | current <= i < current + n { buffer[i] := c; }
      current := current + n;
    }

    /** Ends, and leaves file and buffer as `n` single calls of `Put` do. */
    method PutN(c: Byte, n: nat)
      requires Valid()
      modifies this, buffer
      ensures Valid() && State() == PutMany(old(State()), buffer.Length, c, n)
    {
      var left, avail := n, buffer.Length - current;
      while left > avail
        invariant Valid() && avail == buffer.Length - current && 0 <= left
        invariant PutMany(old(State()), buffer.Length, c, n) == PutMany(State(), buffer.Length, c, left)
        decreases left, avail == 0
      {
        FillFlush(State(), buffer.Length, c, left);
        Memset(c, avail);
        Flush();
        left := left - avail;
        avail := buffer.Length - current;
      }
      Fills(State(), buffer.Length, c, left);
      if left > 0 {
        Memset(c, left);
      } else {
        assert Repeat(c, 0) == [] && State().pending + [] == State().pending;
      }
    }
  }
}
