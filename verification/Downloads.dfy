/** The sequential download loops, against a server that holds a file and answers each request
    with at most `limit` bytes from the offset asked for, and none for a limit below one. */
module Downloads {
  import opened Bytes
  import opened FileParts
  import opened NumberTheory
  import opened TlCodec

  function Tail(content: seq<byte>, offset: nat): seq<byte> {
    if offset <= |content| then content[offset..] else []
  }

  /** upload.getFile */
  function Serve(content: seq<byte>, offset: nat, limit: nat): seq<byte> {
    var rest := Tail(content, offset);
    if |rest| <= limit then rest else rest[..limit]
  }

  /** What is seen of a download when the server stops answering after `answers` requests. */
  datatype Outcome =
    | Whole(data: seq<byte>)
    | Refused  // a chunk is longer than the reader accepts
    | Waiting  // for the next answer

  /** With enough answers the whole file from the offset on, in one more request than it
      fills completely. A limit of zero or less is never satisfied. */
  method Download(content: seq<byte>, from: nat, limit: int, answers: nat) returns (r: Outcome)
    ensures limit <= 0 ==> r == Waiting
    ensures limit > 0 ==>
              (r == if answers > 0 && |Serve(content, from, limit)| > MAX_BYTES_LENGTH then Refused
                    else if answers > |Tail(content, from)| / limit then Whole(Tail(content, from))
                    else Waiting)
  {
    hide Tail, Serve, Flatten, Underway;
    var offset: nat := from;
    var chunks := [];
    var requests := 0;
    AtTheStart(content, from, limit);
    while requests < answers
      invariant requests <= answers
      invariant limit > 0 ==> Underway(content, from, limit, requests, offset, chunks)
    {
      var bytes := if limit > 0 then Serve(content, offset, limit) else [];
      if limit > 0 { OneAnswer(content, from, limit, requests, offset, chunks); }
      if |bytes| > MAX_BYTES_LENGTH { return Refused; }
      chunks := chunks + [bytes];
      requests := requests + 1;
      if |bytes| < limit { return Whole(Flatten(chunks)); }
      if limit > 0 { offset := offset + limit; }
    }
    if limit > 0 { NotThereYet(content, from, limit, requests, offset, chunks); }
    return Waiting;
  }

  /** After so many full chunks. */
  ghost predicate Underway(content: seq<byte>, from: nat, limit: nat, requests: nat, offset: nat, chunks: seq<seq<byte>>) {
    && Flatten(chunks) + Tail(content, offset) == Tail(content, from)
    && Filled(requests, limit) + |Tail(content, offset)| == |Tail(content, from)|
    && (requests == 0 ==> offset == from)
    && (requests > 0 ==> |Serve(content, from, limit)| <= MAX_BYTES_LENGTH)
  }

  lemma AtTheStart(content: seq<byte>, from: nat, limit: int)
    ensures limit > 0 ==> Underway(content, from, limit, 0, from, [])
  {
    hide Tail, Serve;
    if limit > 0 { NothingYet(Tail(content, from), limit); }
  }

  lemma OneAnswer(content: seq<byte>, from: nat, limit: nat, requests: nat, offset: nat, chunks: seq<seq<byte>>)
    requires limit > 0 && Underway(content, from, limit, requests, offset, chunks)
    ensures var c, whole := Serve(content, offset, limit), Tail(content, from);
            && (|c| > MAX_BYTES_LENGTH ==> |Serve(content, from, limit)| > MAX_BYTES_LENGTH)
            && (|c| <= MAX_BYTES_LENGTH && |c| < limit ==>
                  && Flatten(chunks + [c]) == whole && requests == |whole| / limit
                  && |Serve(content, from, limit)| <= MAX_BYTES_LENGTH)
            && (|c| <= MAX_BYTES_LENGTH && |c| >= limit ==>
                  Underway(content, from, limit, requests + 1, offset + limit, chunks + [c]))
  {
    hide Tail, Serve, Flatten, Filled;
    var c := Serve(content, offset, limit);
    NotLonger(content, from, offset, limit);
    FlattenSnoc(chunks, c);
    Chunk(content, offset, limit, Flatten(chunks));
    OneMore(requests, limit);
    if |c| < limit { LastRequest(|Tail(content, from)|, requests, |c|, limit); }
  }

  lemma NotThereYet(content: seq<byte>, from: nat, limit: nat, requests: nat, offset: nat, chunks: seq<seq<byte>>)
    requires limit > 0 && Underway(content, from, limit, requests, offset, chunks)
    ensures requests <= |Tail(content, from)| / limit
    ensures requests > 0 ==> |Serve(content, from, limit)| <= MAX_BYTES_LENGTH
  {
    hide Tail, Serve, Flatten;
    StillFull(|Tail(content, from)|, requests, limit);
  }

  lemma StillFull(total: nat, full: nat, limit: nat)
    requires limit > 0 && Filled(full, limit) <= total
    ensures full <= total / limit
  {
    var q := total / limit;
    DivModUnique(total, q, total % limit, limit);
    assert total < (q + 1) * limit;
    if full > q { MoreIsMore(q + 1, full, limit); }
  }

  lemma MoreIsMore(x: nat, y: nat, k: nat)
    requires x <= y
    ensures x * k <= y * k
  {}

  /** The bytes that so many full chunks hold. */
  function Filled(requests: nat, limit: nat): nat {
    requests * limit
  }

  lemma NothingYet(s: seq<byte>, limit: nat)
    ensures Flatten([]) + s == s && Filled(0, limit) == 0
  {}

  lemma OneMore(requests: nat, limit: nat)
    ensures Filled(requests + 1, limit) == Filled(requests, limit) + limit
  {}

  lemma LastRequest(total: nat, full: nat, last: nat, limit: nat)
    requires last < limit && Filled(full, limit) + last == total
    ensures full == total / limit
  {
    DivModUnique(total, full, last, limit);
  }

  lemma Chunk(content: seq<byte>, offset: nat, limit: nat, before: seq<byte>)
    requires limit > 0
    ensures var c, rest := Serve(content, offset, limit), Tail(content, offset);
            && |c| <= limit
            && (|c| < limit ==> c == rest)
            && (|c| == limit ==> && before + rest == before + c + Tail(content, offset + limit)
                                 && |rest| == limit + |Tail(content, offset + limit)| && offset + limit <= |content|)
  {}

  /** No chunk is longer than the first. */
  lemma NotLonger(content: seq<byte>, from: nat, offset: nat, limit: nat)
    requires |Tail(content, offset)| <= |Tail(content, from)|
    ensures |Serve(content, offset, limit)| <= |Serve(content, from, limit)|
  {}
}
