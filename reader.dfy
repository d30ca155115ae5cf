/** The byte reader the entry decoders consume: a byte sequence, a position
    and a configured byte order. A read either takes exactly its width from
    the position onward or fails with a short-read error and takes nothing. */
module Reader {
  import opened ByteOrder

  datatype Option<+T> = None | Some(value: T)

  /** The reader's one failure: `want` bytes were asked for, only `have` remain. */
  datatype ReadError = ShortRead(want: nat, have: nat)

  datatype Result<+T> = Ok(value: T) | Err(error: ReadError)

  class BReader {
    const data: seq<Byte>
    const order: Endian
    var pos: nat

    ghost predicate Valid()
      reads this
    {
      pos <= |data|
    }

    /** Bytes not yet read. */
    function Remaining(): nat
      reads this
      requires Valid()
    {
      |data| - pos
    }

    constructor (data: seq<Byte>, order: Endian, start: nat)
      requires start <= |data|
      ensures Valid()
      ensures this.data == data && this.order == order && pos == start
    {
      this.data := data;
      this.order := order;
      pos := start;
    }

    /** Reads a `width`-byte unsigned integer in the configured byte order. */
    method ReadUint(width: nat) returns (r: Result<nat>)
      requires Valid()
      modifies this
      ensures Valid()
      ensures old(Remaining()) >= width ==>
        && r == Ok(UintOf(data[old(pos)..old(pos) + width], order))
        && pos == old(pos) + width
      ensures old(Remaining()) < width ==>
        r == Err(ShortRead(width, old(Remaining()))) && pos == old(pos)
    {
      if |data| - pos < width {
        return Err(ShortRead(width, |data| - pos));
      }
      r := Ok(UintOf(data[pos..pos + width], order));
      pos := pos + width;
    }

    /** Reads `n` bytes verbatim, whatever the configured byte order. */
    method ReadBytes(n: nat) returns (r: Result<seq<Byte>>)
      requires Valid()
      modifies this
      ensures Valid()
      ensures old(Remaining()) >= n ==>
        r == Ok(data[old(pos)..old(pos) + n]) && pos == old(pos) + n
      ensures old(Remaining()) < n ==>
        r == Err(ShortRead(n, old(Remaining()))) && pos == old(pos)
    {
      if |data| - pos < n {
        return Err(ShortRead(n, |data| - pos));
      }
      r := Ok(data[pos..pos + n]);
      pos := pos + n;
    }
  }

  function Sum(widths: seq<nat>): nat
  {
    if widths == [] then 0 else widths[0] + Sum(widths[1..])
  }

  /** Bytes taken from `avail` remaining bytes by reading fields of the given
      widths in order, stopping at the first read that does not fit. */
  function Consumed(widths: seq<nat>, avail: nat): (n: nat)
    ensures n <= avail && n <= Sum(widths)
  {
    if widths == [] || avail < widths[0] then 0
    else widths[0] + Consumed(widths[1..], avail - widths[0])
  }

  /** The error of the first of those reads that does not fit, if one does not. */
  function FirstFailure(widths: seq<nat>, avail: nat): Option<ReadError>
  {
    if widths == [] then None
    else if avail < widths[0] then Some(ShortRead(widths[0], avail))
    else FirstFailure(widths[1..], avail - widths[0])
  }

  /** A run of reads fails exactly when the fields together need more than
      remains; then it has taken less than that total, and the failing read
      reports how many bytes it found, which are fewer than it wanted. */
  lemma {:induction false} SequentialReads(widths: seq<nat>, avail: nat)
    ensures FirstFailure(widths, avail).None? <==> Sum(widths) <= avail
    ensures FirstFailure(widths, avail).None? ==> Consumed(widths, avail) == Sum(widths)
    ensures FirstFailure(widths, avail).Some? ==>
      && Consumed(widths, avail) < Sum(widths)
      && FirstFailure(widths, avail).value.have == avail - Consumed(widths, avail)
      && FirstFailure(widths, avail).value.have < FirstFailure(widths, avail).value.want
  {
    if widths != [] && avail >= widths[0] {
      SequentialReads(widths[1..], avail - widths[0]);
    }
  }
}
