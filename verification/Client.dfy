/** Reading replies off an unframed byte stream (rsfbclient-rust/src/client.rs): the retrying
    reader, the replies to pipelined `free_statement` calls, and the parsers that run under
    the reader. */
module Client {
  import opened Wrappers
  import opened Util
  import opened Wire
  import opened Rows

  const OP_FETCH_RESPONSE: u32 := 66
  const OP_DUMMY: u32 := 71
  const OP_SQL_RESPONSE: u32 := 78
  const END_OF_CURSOR: u32 := 100

  /** What a parser makes of the bytes received so far and of the number of lazy replies still
      to be read: `Parsed`, with the lazy count it leaves behind. */
  datatype Attempt<+T> =
    | Got(value: T, rest: seq<byte>, lazy: nat)
    | Short
    | Bad(error: FbError, rest: seq<byte>, lazy: nat)
  {
    predicate IsFailure() {
      !Got?
    }

    function PropagateFailure<U>(): Attempt<U>
      requires IsFailure()
    {
      if Short? then Attempt<U>.Short else Attempt<U>.Bad(error, rest, lazy)
    }

    function Extract(): (T, seq<byte>, nat)
      requires !IsFailure()
    {
      (value, rest, lazy)
    }

    function Append(more: seq<byte>): Attempt<T> {
      match this
      case Got(v, rest, z) => Got(v, rest + more, z)
      case Short => Short
      case Bad(e, rest, z) => Bad(e, rest + more, z)
    }
  }

  function Lift<T>(p: Parsed<T>, lazy: nat): Attempt<T> {
    match p
    case Done(v, rest) => Got(v, rest, lazy)
    case Incomplete => Short
    case Failed(e, rest) => Bad(e, rest, lazy)
  }

  type Parser<T> = (seq<byte>, nat) -> Attempt<T>

  /** Bytes that arrive later never change an attempt that was not short of bytes. */
  ghost predicate Stable<T(!new)>(parse: Parser<T>) {
    forall s: seq<byte>, more: seq<byte>, z: nat ::
      !parse(s, z).Short? ==> parse(s + more, z) == parse(s, z).Append(more)
  }

  // ---------------------------------------------------------------- the parsers

  /** The next op code that is not a keepalive. */
  function NextOp(s: seq<byte>): (p: Parsed<u32>)
    ensures !p.Failed?
    ensures p.Done? ==> |p.rest| <= |s| - 4 && p.value != OP_DUMMY
    decreases |s|
  {
    var (op, s1) :- ReadU32(s);
    if op == OP_DUMMY then NextOp(s1) else Done(op, s1)
  }

  /** The loop of `skip_lazy_responses`, with an op code already read. */
  function SkipFrom(texts: Texts, op: u32, s: seq<byte>, z: nat): (a: Attempt<u32>)
    ensures a.Got? ==> |a.rest| <= |s| && a.lazy == 0
    ensures a.Bad? ==> !IsIncomplete(a.error)
    decreases z
  {
    if z == 0 then Got(op, s, 0)
    else if op != OP_RESPONSE then Bad(Rejected(op), s, z)
    else
      var (_, s1, z1) :- Lift(ReadResponse(texts, s), z - 1);
      var (op', s2, _) :- Lift(NextOp(s1), z1);
      SkipFrom(texts, op', s2, z1)
  }

  /** `skip_lazy_responses`. */
  function SkipLazy(texts: Texts, s: seq<byte>, z: nat): (a: Attempt<u32>)
    ensures a.Got? ==> |a.rest| <= |s| - 4 && a.lazy == 0
    ensures a.Bad? ==> !IsIncomplete(a.error)
  {
    var (op, s1, _) :- Lift(NextOp(s), z);
    SkipFrom(texts, op, s1, z)
  }

  /** The closure of `read_response`. */
  function ReadReply(texts: Texts, s: seq<byte>, z: nat): (a: Attempt<Response>)
    ensures a.Bad? ==> !IsIncomplete(a.error)
  {
    var (op, s1, z1) :- SkipLazy(texts, s, z);
    if op != OP_RESPONSE then Bad(Rejected(op), s1, z1)
    else Lift(ReadResponse(texts, s1), z1)
  }

  datatype Prepared = Prepared(handle: u32, data: seq<byte>)

  /** The closure of `prepare_statement`: the reply to the allocation and the reply to the
      preparation, read together. */
  function ReadPrepare(texts: Texts, s: seq<byte>, z: nat): (a: Attempt<Prepared>)
    ensures a.Bad? ==> !IsIncomplete(a.error)
  {
    var (op, s1, z1) :- SkipLazy(texts, s, z);
    if op != OP_RESPONSE then Bad(Rejected(op), s1, z1)
    else
      var (alloc, s2, _) :- Lift(ReadResponse(texts, s1), z1);
      var (op', s3, _) :- Lift(NextOp(s2), z1);
      if op' != OP_RESPONSE then Bad(Rejected(op'), s3, z1)
      else
        var (prep, s4, _) :- Lift(ReadResponse(texts, s3), z1);
        Got(Prepared(alloc.handle, prep.data), s4, z1)
  }

  /** The closure of `execute2`. */
  function ReadExecute2(texts: Texts, fmt: Layout, s: seq<byte>, z: nat): (a: Attempt<seq<ParsedColumn>>)
    ensures a.Bad? ==> !IsIncomplete(a.error)
  {
    var (op, s1, z1) :- SkipLazy(texts, s, z);
    if op == OP_RESPONSE then
      var (_, s2, _) :- Lift(ReadResponse(texts, s1), z1);
      Bad(Rejected(op), s2, z1)
    else if op != OP_SQL_RESPONSE then Bad(Rejected(op), s1, z1)
    else
      var (row, s2, _) :- Lift(ReadRow(texts, fmt, s1), z1);
      var (_, s3, _) :- Lift(ReadResponse(texts, s2), z1);
      Got(row, s3, z1)
  }

  datatype FetchOne = Row(row: seq<ParsedColumn>) | BatchEnd | End

  /** `parse_one_fetch_response`. */
  function ReadFetch(texts: Texts, fmt: Layout, s: seq<byte>, z: nat): (a: Attempt<FetchOne>)
    ensures a.Bad? ==> !IsIncomplete(a.error)
    ensures a.Got? ==> |a.rest| < |s|
  {
    var (op, s1, z1) :- SkipLazy(texts, s, z);
    ReadFetchBody(texts, fmt, op, s1, z1)
  }

  /** The same, once the op code is known. */
  function ReadFetchBody(texts: Texts, fmt: Layout, op: u32, s1: seq<byte>, z1: nat): (a: Attempt<FetchOne>)
    ensures a.Bad? ==> !IsIncomplete(a.error)
    ensures a.Got? ==> |a.rest| <= |s1|
  {
    if op == OP_RESPONSE then
      var (_, s2, _) :- Lift(ReadResponse(texts, s1), z1);
      Bad(UnexpectedFetchOp(op), s2, z1)
    else if op != OP_FETCH_RESPONSE then Bad(UnexpectedFetchOp(op), s1, z1)
    else
      var (status, s2, _) :- Lift(ReadU32(s1), z1);
      var (messages, s3, _) :- Lift(ReadU32(s2), z1);
      if status == END_OF_CURSOR then Got(End, s3, z1)
      else if messages == 0 then Got(BatchEnd, s3, z1)
      else
        var (row, s4, _) :- Lift(ReadRow(texts, fmt, s2), z1);
        Got(Row(row), s4, z1)
  }

  // ---------------------------------------------------------------- prefix stability

  lemma {:induction false} NextOpStable(s: seq<byte>, more: seq<byte>)
    requires NextOp(s).Done?
    ensures NextOp(s + more) == NextOp(s).Append(more)
    decreases |s|
  {
    hide ReadU32;
    U32Stable(s, more);
    var p := ReadU32(s);
    if p.value == OP_DUMMY {
      NextOpStable(p.rest, more);
    }
  }

  lemma {:induction false} SkipFromStable(texts: Texts, op: u32, s: seq<byte>, z: nat, more: seq<byte>)
    requires !SkipFrom(texts, op, s, z).Short?
    ensures SkipFrom(texts, op, s + more, z) == SkipFrom(texts, op, s, z).Append(more)
    decreases z
  {
    hide NextOp, ReadResponse;
    if z != 0 && op == OP_RESPONSE {
      ResponseStable(texts, s, more);
      var p := ReadResponse(texts, s);
      if p.Done? {
        NextOpStable(p.rest, more);
        var q := NextOp(p.rest);
        SkipFromStable(texts, q.value, q.rest, z - 1, more);
      }
    }
  }

  lemma SkipLazyStable(texts: Texts, s: seq<byte>, z: nat, more: seq<byte>)
    requires !SkipLazy(texts, s, z).Short?
    ensures SkipLazy(texts, s + more, z) == SkipLazy(texts, s, z).Append(more)
  {
    hide NextOp, SkipFrom;
    NextOpStable(s, more);
    SkipFromStable(texts, NextOp(s).value, NextOp(s).rest, z, more);
  }

  lemma ReplyStable(texts: Texts, s: seq<byte>, z: nat, more: seq<byte>)
    requires !ReadReply(texts, s, z).Short?
    ensures ReadReply(texts, s + more, z) == ReadReply(texts, s, z).Append(more)
  {
    hide SkipLazy, ReadResponse;
    SkipLazyStable(texts, s, z, more);
    var a := SkipLazy(texts, s, z);
    if a.Got? && a.value == OP_RESPONSE {
      ResponseStable(texts, a.rest, more);
    }
  }

  lemma PrepareStable(texts: Texts, s: seq<byte>, z: nat, more: seq<byte>)
    requires !ReadPrepare(texts, s, z).Short?
    ensures ReadPrepare(texts, s + more, z) == ReadPrepare(texts, s, z).Append(more)
  {
    hide SkipLazy, ReadResponse, NextOp;
    SkipLazyStable(texts, s, z, more);
    var a := SkipLazy(texts, s, z);
    if a.Got? && a.value == OP_RESPONSE {
      ResponseStable(texts, a.rest, more);
      var alloc := ReadResponse(texts, a.rest);
      if alloc.Done? {
        NextOpStable(alloc.rest, more);
        var op := NextOp(alloc.rest);
        if op.value == OP_RESPONSE {
          ResponseStable(texts, op.rest, more);
        }
      }
    }
  }

  lemma Execute2Stable(texts: Texts, fmt: Layout, s: seq<byte>, z: nat, more: seq<byte>)
    requires !ReadExecute2(texts, fmt, s, z).Short?
    ensures ReadExecute2(texts, fmt, s + more, z) == ReadExecute2(texts, fmt, s, z).Append(more)
  {
    hide SkipLazy, ReadResponse, ReadRow;
    SkipLazyStable(texts, s, z, more);
    var a := SkipLazy(texts, s, z);
    if a.Got? && a.value == OP_RESPONSE {
      ResponseStable(texts, a.rest, more);
    } else if a.Got? && a.value == OP_SQL_RESPONSE {
      RowStable(texts, fmt, a.rest, more);
      var row := ReadRow(texts, fmt, a.rest);
      if row.Done? {
        ResponseStable(texts, row.rest, more);
      }
    }
  }

  lemma FetchStable(texts: Texts, fmt: Layout, s: seq<byte>, z: nat, more: seq<byte>)
    requires !ReadFetch(texts, fmt, s, z).Short?
    ensures ReadFetch(texts, fmt, s + more, z) == ReadFetch(texts, fmt, s, z).Append(more)
  {
    hide SkipLazy, ReadResponse, ReadRow, ReadU32;
    SkipLazyStable(texts, s, z, more);
    var a := SkipLazy(texts, s, z);
    if a.Got? && a.value == OP_RESPONSE {
      ResponseStable(texts, a.rest, more);
    } else if a.Got? && a.value == OP_FETCH_RESPONSE {
      U32Stable(a.rest, more);
      var status := ReadU32(a.rest);
      U32Stable(status.rest, more);
      if status.value != END_OF_CURSOR && ReadU32(status.rest).value != 0 {
        RowStable(texts, fmt, status.rest, more);
      }
    }
  }

  // ---------------------------------------------------------------- the imperative parsers

  /** `Agrees`, for a parser that also counts lazy replies down. */
  ghost predicate Matches<T>(a: Attempt<T>, r: Result<T, FbError>, after: seq<byte>, lazy: nat) {
    match a
    case Got(v, rest, z) => r == Ok(v) && after == rest && lazy == z
    case Short => r == Err(MissingBytes)
    case Bad(e, rest, z) => r == Err(e) && after == rest && lazy == z && !IsIncomplete(e)
  }

  method NextOpCode(resp: Cursor) returns (r: Result<u32, FbError>)
    modifies resp
    ensures Agrees(NextOp(old(resp.data)), r, resp.data)
  {
    while true
      invariant NextOp(resp.data) == NextOp(old(resp.data))
      decreases |resp.data|
    {
      var opCode :- resp.GetU32();
      if opCode != OP_DUMMY {
        return Ok(opCode);
      }
    }
  }

  /** `lazy_count` is passed in and handed back. */
  method SkipLazyResponses(texts: Texts, resp: Cursor, lazyCount: nat)
    returns (r: Result<u32, FbError>, lazy: nat)
    modifies resp
    ensures Matches(SkipLazy(texts, old(resp.data), lazyCount), r, resp.data, lazy)
  {
    hide NextOp, ReadResponse;
    lazy := lazyCount;
    var next := NextOpCode(resp);
    if next.Err? {
      return next, lazy;
    }
    var opCode := next.value;
    while lazy > 0
      invariant SkipFrom(texts, opCode, resp.data, lazy) == SkipLazy(texts, old(resp.data), lazyCount)
      decreases lazy
    {
      if opCode != OP_RESPONSE {
        return Err(Rejected(opCode)), lazy;
      }
      lazy := lazy - 1;
      var reply := ParseResponse(texts, resp);
      if reply.Err? {
        return Err(reply.error), lazy;
      }
      next := NextOpCode(resp);
      if next.Err? {
        return next, lazy;
      }
      opCode := next.value;
    }
    return Ok(opCode), lazy;
  }

  method ParseReply(texts: Texts, resp: Cursor, lazyCount: nat) returns (r: Result<Response, FbError>, lazy: nat)
    modifies resp
    ensures Matches(ReadReply(texts, old(resp.data), lazyCount), r, resp.data, lazy)
  {
    hide SkipLazy, ReadResponse;
    var op;
    op, lazy := SkipLazyResponses(texts, resp, lazyCount);
    if op.Err? {
      return Err(op.error), lazy;
    }
    if op.value != OP_RESPONSE {
      return Err(Rejected(op.value)), lazy;
    }
    r := ParseResponse(texts, resp);
  }

  method ParsePrepare(texts: Texts, resp: Cursor, lazyCount: nat) returns (r: Result<Prepared, FbError>, lazy: nat)
    modifies resp
    ensures Matches(ReadPrepare(texts, old(resp.data), lazyCount), r, resp.data, lazy)
  {
    hide SkipLazy, ReadResponse, NextOp;
    var op;
    op, lazy := SkipLazyResponses(texts, resp, lazyCount);
    if op.Err? {
      return Err(op.error), lazy;
    }
    if op.value != OP_RESPONSE {
      return Err(Rejected(op.value)), lazy;
    }
    var alloc := ParseResponse(texts, resp);
    if alloc.Err? {
      return Err(alloc.error), lazy;
    }
    op := NextOpCode(resp);
    if op.Err? {
      return Err(op.error), lazy;
    }
    if op.value != OP_RESPONSE {
      return Err(Rejected(op.value)), lazy;
    }
    var prep := ParseResponse(texts, resp);
    if prep.Err? {
      return Err(prep.error), lazy;
    }
    return Ok(Prepared(alloc.value.handle, prep.value.data)), lazy;
  }

  method ParseExecute2(texts: Texts, fmt: Layout, resp: Cursor, lazyCount: nat)
    returns (r: Result<seq<ParsedColumn>, FbError>, lazy: nat)
    modifies resp
    ensures Matches(ReadExecute2(texts, fmt, old(resp.data), lazyCount), r, resp.data, lazy)
  {
    hide SkipLazy, ReadResponse, ReadRow;
    var op;
    op, lazy := SkipLazyResponses(texts, resp, lazyCount);
    if op.Err? {
      return Err(op.error), lazy;
    }
    if op.value == OP_RESPONSE {
      var failure := ParseResponse(texts, resp);
      if failure.Err? {
        return Err(failure.error), lazy;
      }
    }
    if op.value != OP_SQL_RESPONSE {
      return Err(Rejected(op.value)), lazy;
    }
    r := ParseSqlResponse(texts, fmt, resp);
    if r.Err? {
      return;
    }
    var end := ParseResponse(texts, resp);
    if end.Err? {
      return Err(end.error), lazy;
    }
  }

  method ParseOneFetchResponse(texts: Texts, fmt: Layout, resp: Cursor, lazyCount: nat)
    returns (r: Result<FetchOne, FbError>, lazy: nat)
    modifies resp
    ensures Matches(ReadFetch(texts, fmt, old(resp.data), lazyCount), r, resp.data, lazy)
  {
    hide SkipLazy, ReadResponse, ReadRow, BigEndianValue;
    var op;
    op, lazy := SkipLazyResponses(texts, resp, lazyCount);
    if op.Err? {
      return Err(op.error), lazy;
    }
    if op.value == OP_RESPONSE {
      var failure := ParseResponse(texts, resp);
      if failure.Err? {
        return Err(failure.error), lazy;
      }
    }
    if op.value != OP_FETCH_RESPONSE {
      return Err(UnexpectedFetchOp(op.value)), lazy;
    }
    var left := resp.Remaining();
    if left < 8 {
      return Err(MissingBytes), lazy;
    }
    // Peek both words without consuming them
    var peek := new Cursor(resp.data);
    var status := peek.GetU32();
    var messages := peek.GetU32();
    assert resp.data[4..][4..] == resp.data[8..];
    if status.value == END_OF_CURSOR {
      var _ := resp.Advance(8);
      return Ok(End), lazy;
    }
    if messages.value == 0 {
      var _ := resp.Advance(8);
      return Ok(BatchEnd), lazy;
    }
    // parse_fetch_response reads the status again
    var _ := resp.GetU32();
    var row := ParseSqlResponse(texts, fmt, resp);
    if row.Err? {
      return Err(row.error), lazy;
    }
    return Ok(Row(row.value)), lazy;
  }
}
