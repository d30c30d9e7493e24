/**
 * The integer widths used by warcmount and the stream of records it consumes
 * from the web-archive decoder.
 *
 * The decoder itself is not part of this model: a record source is a finite
 * sequence of records followed by the error that ends the stream (EOF for a
 * normal end, anything else for a malformed archive).
 */
module Archive {

  datatype Option<T> = None | Some(value: T)

  newtype byte = x: int | 0 <= x < 0x100

  /** Go's int64, the type of a record's declared size. */
  newtype int64 = x: int | -0x8000_0000_0000_0000 <= x < 0x8000_0000_0000_0000

  /** Go's uint64, the type of inode numbers and attribute sizes. */
  newtype uint64 = x: int | 0 <= x < 0x1_0000_0000_0000_0000

  const Two64: int := 0x1_0000_0000_0000_0000

  /**
   * Go's conversion `uint64(x)` of a signed integer: the two's-complement
   * bits are reinterpreted, so the result is x modulo 2^64. A 64-bit Go `int`
   * that wrapped around before the conversion leaves the same residue, so
   * this also models `uint64(idx)` for an ever-incremented `idx`.
   */
  function ToUint64(x: int): (u: uint64)
    ensures 0 <= x < Two64 ==> u as int == x
    ensures -Two64 <= x < 0 ==> u as int == x + Two64
    ensures (u as int - x) % Two64 == 0
  {
    (x % Two64) as uint64
  }

  /** The errors the decoder and payload reads report; io.EOF is singled out. */
  datatype Error = EOF | Failure(reason: string)

  /**
   * What reading a record's payload to its end gives: the bytes, or the read
   * failure. Reaching the end of the payload is success, never an EOF error.
   */
  datatype Payload = Bytes(data: seq<byte>) | ReadFailed(reason: string)

  /** One archive record: its URL, its declared size and its payload. */
  datatype Record = Record(url: string, size: int64, payload: Payload)

  /** One call of the decoder's NextPayload: a record, or the error that ends the stream. */
  datatype Step = Next(record: Record) | Stop(err: Error)

  /**
   * A record source: the records in archive order, then the terminating
   * error, which the decoder keeps reporting once the records are used up.
   */
  datatype Source = Source(records: seq<Record>, end: Error) {

    /** The answer of the pos-th call (0-based) of NextPayload. */
    function NextPayload(pos: nat): Step
    {
      if pos < |records| then Next(records[pos]) else Stop(end)
    }
  }

  /** No record of recs fails to deliver its payload. */
  ghost predicate NoReadError(recs: seq<Record>)
  {
    forall i :: 0 <= i < |recs| ==> recs[i].payload.Bytes?
  }

  /**
   * The decoder's promise that a record's payload stream holds exactly its
   * declared size. warcmount never checks this; it is an assumption on the
   * source under which the lemmas about sizes hold.
   */
  ghost predicate SizesDeclared(recs: seq<Record>)
  {
    forall i :: 0 <= i < |recs| ==>
      recs[i].payload.Bytes? && recs[i].size as int == |recs[i].payload.data|
  }

  /**
   * The index of the first record whose payload read fails, if any: the
   * point at which building the namespace is abandoned.
   */
  function FirstReadError(recs: seq<Record>): (r: Option<nat>)
    ensures r.Some? ==> r.value < |recs| && recs[r.value].payload.ReadFailed?
    ensures r.Some? ==> NoReadError(recs[..r.value])
    ensures r.None? <==> NoReadError(recs)
  {
    if recs == [] then None
    else if recs[0].payload.ReadFailed? then Some(0)
    else
      match FirstReadError(recs[1..])
      case None => None
      case Some(k) => Some(k + 1)
  }
}
