/** The byte-limited writer that guards decompression, and the copy loop over it. */
module LimitedWrite {
  import opened Prelude
  import opened Utf8

  /** What the inner writer does with one call. */
  datatype Inner = Accepts(count: nat) | Fails | Waits

  datatype Poll = Ready(count: nat) | LimitExceeded | InnerError | Pending

  /** A count kept in 64 bits. */
  function Wrapped(n: nat): nat {
    n % (U64_MAX + 1)
  }

  lemma WrappedStep(n: nat, count: nat)
    ensures Wrapped(Wrapped(n) + count) == Wrapped(n + count)
    ensures n <= U64_MAX ==> Wrapped(n) == n
  {
  }

  class LimitedWriter {
    var inner: Bytes
    var written: nat
    const limit: nat

    /** The count is exact in 64 bits and the limit is kept. The largest limit of all
        cannot be kept, since the saturating sum never exceeds it. */
    predicate Valid()
      reads this
    {
      && limit <= U64_MAX
      && written == Wrapped(|inner|)
      && (limit != U64_MAX ==> |inner| <= limit)
    }

    lemma CountIsExact()
      requires Valid() && limit != U64_MAX
      ensures written == |inner| <= limit
    {
    }

    constructor (limit: nat)
      requires limit <= U64_MAX
      ensures Valid() && inner == [] && this.limit == limit
    {
      inner, written, this.limit := [], 0, limit;
    }

    /** A whole buffer that does not fit is refused before any of it is written. */
    method PollWrite(buf: Bytes, answer: Inner) returns (r: Poll)
      requires Valid() && (answer.Accepts? ==> answer.count <= |buf|)
      modifies this
      ensures Valid()
      ensures r == if limit != U64_MAX && |old(inner)| + |buf| > limit then LimitExceeded
                   else match answer { case Accepts(n) => Ready(n) case Fails => InnerError case Waits => Pending }
      ensures r.Ready? ==> r.count == answer.count && inner == old(inner) + buf[..r.count]
      ensures !r.Ready? ==> inner == old(inner) && written == old(written)
    {
      WrappedStep(|inner|, if answer.Accepts? then answer.count else 0);
      hide Wrapped;
      var newTotal := SaturatingAdd(written, |buf|);
      if newTotal > limit {
        return LimitExceeded;
      }
      match answer
      case Accepts(count) =>
        written := Wrapped(written + count);
        inner := inner + buf[..count];
        r := Ready(count);
      case Fails => r := InnerError;
      case Waits => r := Pending;
    }
  }

  /** Copies a stream that arrives in chunks; call `k` of the inner writer takes any
      non-empty part of what it is offered. */
  method Copy(chunks: seq<Chunk>, accept: nat -> nat, writer: LimitedWriter) returns (ok: bool)
    requires writer.Valid()
    modifies writer
    ensures writer.Valid() && (writer.limit != U64_MAX ==> writer.written == |writer.inner|)
    ensures ok <==> writer.limit == U64_MAX || |old(writer.inner)| + |Concat(chunks)| <= writer.limit
    ensures ok ==> writer.inner == old(writer.inner) + Concat(chunks)
    ensures !ok ==> exists k :: 0 <= k < |chunks| && writer.inner == old(writer.inner) + Concat(chunks[..k])
                                && |writer.inner| + |chunks[k]| > writer.limit
  {
    hide LimitedWriter.Valid;
    var calls := 0;
    ghost var start := writer.inner;
    assert start + Concat(chunks[..0]) == start;
    for k := 0 to |chunks|
      invariant writer.Valid()
      invariant writer.inner == start + Concat(chunks[..k])
    {
      FrontLength(chunks, k);
      ghost var before := writer.inner;
      var pos := 0;
      assert before + chunks[k][..0] == before;
      while pos < |chunks[k]|
        invariant pos <= |chunks[k]| && writer.Valid()
        invariant writer.inner == before + chunks[k][..pos]
        invariant pos > 0 ==> writer.limit == U64_MAX || |before| + |chunks[k]| <= writer.limit
      {
        var rest := chunks[k][pos..];
        var r := writer.PollWrite(rest, Accepts(1 + accept(calls) % |rest|));
        calls := calls + 1;
        if r == LimitExceeded {
          assert pos == 0;
          writer.CountIsExact();
          return false;
        }
        NextPart(before, chunks[k], pos, r.count);
        pos := pos + r.count;
      }
      assert chunks[k][..pos] == chunks[k];
      FrontStep(start, chunks, k);
    }
    assert chunks[..|chunks|] == chunks;
    if writer.limit != U64_MAX {
      writer.CountIsExact();
    }
    ok := true;
  }

  lemma NextPart(before: Bytes, chunk: Bytes, pos: nat, n: nat)
    requires pos + n <= |chunk|
    ensures before + chunk[..pos] + chunk[pos..][..n] == before + chunk[..pos + n]
  {
    Assoc(before, chunk[..pos], chunk[pos..][..n]);
    assert chunk[..pos] + chunk[pos..][..n] == chunk[..pos + n];
  }

  lemma FrontStep(start: Bytes, chunks: seq<Chunk>, k: nat)
    requires k < |chunks|
    ensures start + Concat(chunks[..k + 1]) == start + Concat(chunks[..k]) + chunks[k]
  {
    assert chunks[..k + 1] == chunks[..k] + [chunks[k]];
    ConcatAppend<byte>(chunks[..k], [chunks[k]]);
    ConcatOne<byte>(chunks[k]);
    Assoc(start, Concat(chunks[..k]), chunks[k]);
  }

  /** The chunks up to and with number `k` are a front of the stream. */
  lemma FrontLength(chunks: seq<Chunk>, k: nat)
    requires k < |chunks|
    ensures |Concat(chunks[..k])| + |chunks[k]| <= |Concat(chunks)|
  {
    assert chunks == chunks[..k] + chunks[k..];
    ConcatAppend<byte>(chunks[..k], chunks[k..]);
  }
}
