/** Splitting a file into the parts of an upload, and choosing the part size. */
module FileParts {
  import opened Bytes
  import opened NumberTheory
  import opened Options

  const MIN_PART_SIZE: nat := 1024
  const MAX_PART_SIZE: nat := 524288
  const MAX_PARTS: nat := 3000

  // ---------------------------------------------------------------- part size

  /** Math.ceil(a / b) */
  function CeilDiv(a: int, b: int): int
    requires b > 0
  {
    (a + b - 1) / b
  }

  /** The smallest of 1024, 2048, ..., 524288 that needs at most 3000 parts, or the largest
      when none does. (The comment in the source says 4000.) */
  method ComputePartSize(fileSize: int) returns (partSize: nat)
    ensures exists k: nat :: k <= 9 && partSize == 1024 * Pow(2, k)
              && (forall j: nat :: j < k ==> fileSize > 3000 * (1024 * Pow(2, j)))
              && (k == 9 || fileSize <= 3000 * (1024 * Pow(2, k)))
  {
    ghost var k: nat := 0;
    NinePowers();
    if fileSize <= 0 {
      PowPositive(2, 0);
      return MIN_PART_SIZE;
    }
    partSize := MIN_PART_SIZE;
    while partSize < MAX_PART_SIZE
      invariant k <= 9 && partSize == MIN_PART_SIZE * Pow(2, k)
      invariant forall j: nat :: j < k ==> fileSize > 3000 * (1024 * Pow(2, j))
      decreases 9 - k
    {
      CeilDivMeans(fileSize, partSize, 3000);
      if CeilDiv(fileSize, partSize) <= MAX_PARTS {
        return partSize;
      }
      partSize := partSize * 2;
      k := k + 1;
      assert Pow(2, k) == 2 * Pow(2, k - 1);
    }
    SmallerPower(k);
    return MAX_PART_SIZE;
  }

  /** Rounding up stays within n exactly when n whole ones are enough. */
  lemma CeilDivMeans(a: int, b: int, n: int)
    requires b > 0
    ensures CeilDiv(a, b) <= n <==> a <= n * b
  {
    var q, r := CeilDiv(a, b), (a + b - 1) % b;
    assert a + b - 1 == q * b + r;
    if q <= n { Scaled(q, n, b); } else { Scaled(n + 1, q, b); }
  }

  lemma Scaled(x: int, y: int, b: int)
    requires x <= y && b > 0
    ensures x * b <= y * b
  {}

  lemma NinePowers()
    ensures Pow(2, 0) == 1 && Pow(2, 9) == 512
  {
    assert Pow(2, 9) == 2 * Pow(2, 8);
    assert Pow(2, 8) == 4 * Pow(2, 6);
    assert Pow(2, 6) == 4 * Pow(2, 4);
    assert Pow(2, 4) == 4 * Pow(2, 2);
  }

  lemma {:induction false} SmallerPower(k: nat)
    requires k <= 9
    ensures Pow(2, k) >= 512 ==> k == 9
    decreases 9 - k
  {
    NinePowers();
    if k < 9 {
      SmallerPower(k + 1);
      assert Pow(2, k + 1) == 2 * Pow(2, k);
    }
  }

  // ---------------------------------------------------------------- splitting

  predicate PartSizeOk(size: int) {
    MIN_PART_SIZE <= size <= MAX_PART_SIZE && size % 1024 == 0
  }

  function End(data: seq<byte>, offset: nat, size: nat): (end: nat)
    requires offset < |data| && size > 0
    ensures offset < end <= |data|
  {
    if offset + size < |data| then offset + size else |data|
  }

  function PartsFrom(data: seq<byte>, offset: nat, size: nat): seq<seq<byte>>
    requires size > 0
    decreases |data| - offset
  {
    if offset >= |data| then [] else [data[offset..End(data, offset, size)]] + PartsFrom(data, offset + size, size)
  }

  /** The parts of a file; the empty file is one empty part. */
  function Parts(data: seq<byte>, size: nat): (ps: seq<seq<byte>>)
    requires size > 0
    ensures ps != []
  {
    if data == [] then [[]] else PartsFrom(data, 0, size)
  }

  lemma PartsFromStep(data: seq<byte>, offset: nat, size: nat, before: seq<seq<byte>>)
    requires size > 0
    ensures (offset < |data| ==>
               before + PartsFrom(data, offset, size)
               == before + [data[offset..End(data, offset, size)]] + PartsFrom(data, offset + size, size))
    ensures offset >= |data| ==> before + PartsFrom(data, offset, size) == before
  {}

  /** None when the source throws. */
  method SplitFile(data: seq<byte>, size: int) returns (r: Option<seq<seq<byte>>>)
    ensures r == if PartSizeOk(size) then Some(Parts(data, size)) else None
    ensures r.Some? <==> 1024 <= size <= 524288 && size % 1024 == 0
  {
    if size < MIN_PART_SIZE || size > MAX_PART_SIZE { return None; }
    if size % 1024 != 0 { return None; }
    hide PartsFrom;
    var parts: seq<seq<byte>> := [];
    var offset := 0;
    while offset < |data|
      invariant offset == 0 <==> parts == []
      invariant PartsFrom(data, 0, size) == parts + PartsFrom(data, offset, size)
      decreases |data| - offset
    {
      var end := if offset + size < |data| then offset + size else |data|;
      PartsFromStep(data, offset, size, parts);
      parts := parts + [data[offset..end]];
      offset := offset + size;
    }
    PartsFromStep(data, offset, size, parts);
    if |parts| == 0 {
      parts := parts + [[]];
      assert parts == [[]] == Parts(data, size);
    }
    return Some(parts);
  }

  function Flatten(ps: seq<seq<byte>>): seq<byte> {
    if ps == [] then [] else ps[0] + Flatten(ps[1..])
  }

  lemma {:induction false} FlattenSnoc(ps: seq<seq<byte>>, q: seq<byte>)
    ensures Flatten(ps + [q]) == Flatten(ps) + q
  {
    if ps == [] {
      assert ps + [q] == [q] && Flatten([q][1..]) == [];
    } else {
      FlattenSnoc(ps[1..], q);
      assert (ps + [q])[1..] == ps[1..] + [q];
    }
  }

  /** All parts but the last have the full size, and the last is not empty. */
  predicate FullButLast(ps: seq<seq<byte>>, size: nat) {
    (forall i :: 0 <= i < |ps| - 1 ==> |ps[i]| == size) && (ps != [] ==> 0 < |ps[|ps| - 1]| <= size)
  }

  lemma {:induction false} PartsFromCover(data: seq<byte>, offset: nat, size: nat)
    requires size > 0
    ensures var ps := PartsFrom(data, offset, size);
            && Flatten(ps) == (if offset <= |data| then data[offset..] else [])
            && FullButLast(ps, size)
            && (offset < |data| ==> ps != [])
    decreases |data| - offset
  {
    hide FullButLast;
    if offset < |data| {
      var end, more := End(data, offset, size), PartsFrom(data, offset + size, size);
      PartsFromCover(data, offset + size, size);
      FlattenCons(data[offset..end], more);
      assert data[offset..] == data[offset..end] + data[end..];
      FullButLastCons(data[offset..end], more, size);
    } else {
      NothingLeft(size);
    }
  }

  lemma NothingLeft(size: nat)
    ensures FullButLast([], size) && Flatten([]) == []
  {}

  lemma FlattenCons(p: seq<byte>, ps: seq<seq<byte>>)
    ensures Flatten([p] + ps) == p + Flatten(ps)
  {
    assert ([p] + ps)[1..] == ps;
  }

  lemma FullButLastCons(p: seq<byte>, ps: seq<seq<byte>>, size: nat)
    requires FullButLast(ps, size) && 0 < |p| <= size && (ps != [] ==> |p| == size)
    ensures FullButLast([p] + ps, size)
  {
    assert forall i :: 0 < i <= |ps| ==> ([p] + ps)[i] == ps[i - 1];
  }

  /** The parts put together are the file; all have the full size but the last, which may be
      shorter and is empty only for an empty file. */
  lemma PartsMakeTheFile(data: seq<byte>, size: nat)
    requires size > 0
    ensures Flatten(Parts(data, size)) == data
    ensures if data == [] then Parts(data, size) == [[]] else FullButLast(Parts(data, size), size)
  {
    hide PartsFrom;
    PartsFromCover(data, 0, size);
    if data == [] {
      assert Flatten(Parts(data, size)[1..]) == [];
    }
  }
}
