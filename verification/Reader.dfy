/** bufio.Reader over io.LimitedReader over a file that may grow while it is read. */
module Reader {
  import opened GoStrings
  import opened Lines

  /** A file handle. `bytes` is all the file will ever hold, `size` how much of it is there so far. */
  class FileHandle {
    const bytes: string
    var size: nat
    var pos: nat

    predicate Valid()
      reads this
    {
      pos <= size <= |bytes|
    }

    constructor (bytes: string, size: nat)
      requires size <= |bytes|
      ensures Valid() && this.bytes == bytes && this.size == size && pos == 0
    {
      this.bytes, this.size, this.pos := bytes, size, 0;
    }

    /** Between one and `limit` of the next bytes, or none at the end of what is there. */
    method Read(limit: nat) returns (chunk: string)
      requires Valid() && limit > 0
      modifies this
      ensures Valid() && old(size) <= size
      ensures old(pos) <= pos <= old(pos) + limit && chunk == bytes[old(pos)..pos]
      ensures chunk == "" ==> pos == size
    {
      var grown: nat :| size <= grown <= |bytes|;
      size := grown;
      if pos == size {
        return "";
      }
      var k :| 1 <= k <= limit && k <= size - pos;
      chunk := bytes[pos..pos + k];
      pos := pos + k;
    }

    method Seek(offset: nat)
      requires Valid() && offset <= size
      modifies this`pos
      ensures Valid() && pos == offset
    {
      pos := offset;
    }
  }

  /** What one ReadString call returns and leaves behind. */
  datatype Reading = Reading(part: string, eof: bool, pos: nat, n: nat, buf: string)

  /**
    A call that starts at `pos` with budget `n` and `buf` read ahead. It returns a line, or, at
    the end of the file or of the budget, all there is, without a newline; every byte taken
    from the file is paid from the budget and is either returned or kept in the buffer.
   */
  predicate Reads(capacity: nat, bytes: string, pos: nat, n: nat, buf: string, r: Reading) {
    && pos <= r.pos <= |bytes|
    && r.pos - pos <= n && r.n == n - (r.pos - pos)
    && r.part + r.buf == buf + bytes[pos..r.pos]
    && (!r.eof ==> IsLine(r.part) && |r.buf| < capacity)
    && (r.eof ==> '\n' !in r.part && r.buf == "")
  }

  class LineReader {
    const file: FileHandle
    const capacity: nat
    var n: nat
    var buf: string

    predicate Valid()
      reads this, file
    {
      file.Valid() && capacity > 0 && |buf| <= capacity
    }

    constructor (file: FileHandle, capacity: nat, n: nat)
      requires file.Valid() && capacity > 0
      ensures Valid() && this.file == file && this.capacity == capacity && this.n == n && buf == ""
    {
      this.file, this.capacity, this.n, this.buf := file, capacity, n, "";
    }

    /** ReadString('\n'). The end is reported only once the budget is spent or the file has no more. */
    method ReadString() returns (part: string, eof: bool)
      requires Valid()
      modifies this, file
      ensures Valid() && old(file.size) <= file.size
      ensures Reads(capacity, file.bytes, old(file.pos), old(n), old(buf), Reading(part, eof, file.pos, n, buf))
      ensures eof && n > 0 ==> file.pos == file.size
    {
      part, eof := "", false;
      while true
        invariant Valid() && old(file.pos) <= file.pos && old(file.size) <= file.size
        invariant file.pos - old(file.pos) <= old(n) && n == old(n) - (file.pos - old(file.pos))
        invariant part + buf == old(buf) + file.bytes[old(file.pos)..file.pos]
        invariant '\n' !in part
        decreases |file.bytes| - file.pos, |buf|
      {
        var (before, after, found) := Cut(buf, '\n');
        if found {
          TakeLine(part, before, after);
          part, buf := part + (before + "\n"), after;
          return;
        }
        if |buf| == capacity {
          part, buf := part + buf, "";
          continue;
        }
        if n == 0 {
          part, buf, eof := part + buf, "", true;
          return;
        }
        ghost var from := file.pos;
        var chunk := file.Read(if capacity - |buf| < n then capacity - |buf| else n);
        if chunk == "" {
          part, buf, eof := part + buf, "", true;
          return;
        }
        MoreRead(file.bytes, old(file.pos), from, file.pos, part, buf, old(buf));
        buf, n := buf + chunk, n - |chunk|;
      }
    }
  }

  lemma TakeLine(part: string, before: string, after: string)
    requires '\n' !in part && '\n' !in before
    ensures IsLine(part + (before + "\n"))
    ensures part + (before + "\n") + after == part + (before + "\n" + after)
  {
    LineOfCut(part + before);
    assert part + (before + "\n") == part + before + "\n";
  }

  lemma MoreRead(bytes: string, start: nat, from: nat, to: nat, part: string, buf: string, buf0: string)
    requires start <= from <= to <= |bytes|
    requires part + buf == buf0 + bytes[start..from]
    ensures part + (buf + bytes[from..to]) == buf0 + bytes[start..to]
  {
    assert bytes[start..to] == bytes[start..from] + bytes[from..to];
    assert part + (buf + bytes[from..to]) == (part + buf) + bytes[from..to];
  }
}
