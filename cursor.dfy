/** The read cursor every parser shares: an `io.BytesIO` over an immutable buffer.
    `ReadAt` is the meaning of one `read(n)`; `Reader` is the object whose position
    the parsers advance, save (`Tell`) and restore (`Seek`). */
module Cursor {
  import opened Wrappers
  import opened Bytes

  /** `read(n)` at position `pos`: the next `n` octets when that many remain,
      otherwise every remaining octet (a short read, not an error). */
  function ReadAt(buf: Bytes, pos: nat, n: nat): (r: (Bytes, nat))
    requires pos <= |buf|
    ensures pos <= r.1 <= |buf| && r.0 == buf[pos..r.1]
    ensures pos + n <= |buf| ==> r.1 == pos + n
    ensures pos + n > |buf| ==> r.1 == |buf|
  {
    var end := if pos + n <= |buf| then pos + n else |buf|;
    (buf[pos..end], end)
  }

  /** A parser's outcome `r`, with the cursor left at `pos`, is the one the
      specification `spec` describes: failure, or the value and the end position. */
  predicate Yields<T(==)>(r: Option<T>, pos: nat, spec: Option<(T, nat)>)
  {
    match spec
    case None => r.None?
    case Some((v, end)) => r == Some(v) && pos == end
  }

  /** Prepends the items already read to the outcome of reading the rest: the shape
      of every loop that appends to a list while it advances the cursor. */
  function Prefixed<T>(items: seq<T>, o: Option<(seq<T>, nat)>): Option<(seq<T>, nat)>
  {
    match o
    case None => None
    case Some((rest, end)) => Some((items + rest, end))
  }

  lemma PrefixedNothing<T>(o: Option<(seq<T>, nat)>)
    ensures Prefixed([], o) == o
  {
    if o.Some? {
      assert [] + o.value.0 == o.value.0;
    }
  }

  lemma PrefixedTwice<T>(a: seq<T>, b: seq<T>, o: Option<(seq<T>, nat)>)
    ensures Prefixed(a, Prefixed(b, o)) == Prefixed(a + b, o)
  {
    if o.Some? {
      assert a + (b + o.value.0) == (a + b) + o.value.0;
    }
  }

  class Reader {
    const data: Bytes
    var pos: nat

    ghost predicate Valid()
      reads this
    {
      pos <= |data|
    }

    constructor (data: Bytes)
      ensures Valid() && this.data == data && pos == 0
    {
      this.data := data;
      pos := 0;
    }

    /** `reader.read(n)`. */
    method Read(n: nat) returns (r: Bytes)
      requires Valid()
      modifies this
      ensures Valid()
      ensures (r, pos) == ReadAt(data, old(pos), n)
    {
      var end := if pos + n <= |data| then pos + n else |data|;
      r := data[pos..end];
      pos := end;
    }

    /** `reader.tell()`. */
    method Tell() returns (p: nat)
      ensures p == pos
    {
      p := pos;
    }

    /** `reader.seek(p)`; every seek of the codec stays inside the buffer. */
    method Seek(p: nat)
      requires p <= |data|
      modifies this
      ensures Valid() && pos == p
    {
      pos := p;
    }
  }
}
