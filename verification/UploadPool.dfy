/** The upload workers: several async loops that share a part counter and a byte count. A
    worker runs without interruption until it awaits a part, so a run is any interleaving of
    completions and failures. */
module UploadPool {
  import opened Bytes
  import opened FileParts
  import opened Options

  datatype Worker =
    | Sending(part: nat)
    | Failed(lost: nat)
    | Finished

  /** `sent` are the parts given to invoke, in order of time, and `completed` those whose
      request succeeded. */
  datatype Pool = Pool(nextPart: nat, uploadedBytes: nat, workers: seq<Worker>, sent: seq<nat>, completed: set<nat>)

  /** A worker at the head of its loop: it claims the next part or it ends. */
  function Claim(p: Pool, total: nat): (Pool, Worker) {
    if p.nextPart < total then (p.(nextPart := p.nextPart + 1, sent := p.sent + [p.nextPart]), Sending(p.nextPart))
    else (p, Finished)
  }

  function Spawn(p: Pool, total: nat, count: nat): Pool {
    if count == 0 then p else
      var before := Spawn(p, total, count - 1);
      var (after, w) := Claim(before, total);
      after.(workers := after.workers + [w])
  }

  const EMPTY := Pool(0, 0, [], [], {})

  /** Math.min(workers, totalParts) workers are started; none for a count below one. */
  function Start(total: nat, workers: int): Pool {
    var count := if workers < total then workers else total;
    if count <= 0 then EMPTY else Spawn(EMPTY, total, count)
  }

  datatype Step = Completes(worker: nat) | Fails(worker: nat)

  /** A step of a worker that does not await anything is no step. */
  function Do(p: Pool, parts: seq<seq<byte>>, step: Step): Pool {
    if step.worker >= |p.workers| || !p.workers[step.worker].Sending? then p else
      var part := p.workers[step.worker].part;
      if step.Fails? || part >= |parts| then p.(workers := p.workers[step.worker := Failed(part)])
      else
        var after := p.(uploadedBytes := p.uploadedBytes + |parts[part]|, completed := p.completed + {part});
        var (claimed, w) := Claim(after, |parts|);
        claimed.(workers := p.workers[step.worker := w])
  }

  class Upload {
    const parts: seq<seq<byte>>
    var nextPart: nat
    var uploadedBytes: nat
    var workers: seq<Worker>
    // history
    ghost var sent: seq<nat>
    ghost var completed: set<nat>

    ghost function View(): Pool
      reads this
    {
      Pool(nextPart, uploadedBytes, workers, sent, completed)
    }

    constructor (parts: seq<seq<byte>>, workers: int)
      ensures this.parts == parts && View() == Start(|parts|, workers)
    {
      this.parts := parts;
      nextPart, uploadedBytes, this.workers := 0, 0, [];
      sent, completed := [], {};
      new;
      var workerCount := if workers < |parts| then workers else |parts|;
      for i := 0 to if workerCount < 0 then 0 else workerCount
        invariant View() == Spawn(EMPTY, |parts|, i)
      {
        var w := LoopHead();
        this.workers := this.workers + [w];
      }
    }

    /** `while (nextPart < totalParts)` up to the await. */
    method LoopHead() returns (w: Worker)
      modifies this`nextPart, this`sent
      ensures (View(), w) == Claim(old(View()), |parts|)
    {
      if nextPart < |parts| {
        w := Sending(nextPart);
        sent := sent + [nextPart];
        nextPart := nextPart + 1;
      } else {
        w := Finished;
      }
    }

    /** The request of a worker succeeds and its loop goes on. */
    method OnCompleted(worker: nat)
      requires worker < |workers| && workers[worker].Sending? && workers[worker].part < |parts|
      modifies this
      ensures View() == Do(old(View()), parts, Completes(worker))
      ensures var part, next := old(workers)[worker].part, old(nextPart);
              && uploadedBytes == old(uploadedBytes) + |parts[part]| && completed == old(completed) + {part}
              && (if next < |parts| then nextPart == next + 1 && workers == old(workers)[worker := Sending(next)]
                  else nextPart == next && workers == old(workers)[worker := Finished])
    {
      var part := workers[worker].part;
      uploadedBytes := uploadedBytes + |parts[part]|;
      completed := completed + {part};
      var w := LoopHead();
      workers := workers[worker := w];
    }

    /** The request of a worker fails; the others go on. */
    method OnFailed(worker: nat)
      requires worker < |workers| && workers[worker].Sending?
      modifies this
      ensures View() == Do(old(View()), parts, Fails(worker))
      ensures workers == old(workers)[worker := Failed(old(workers)[worker].part)]
      ensures uploadedBytes == old(uploadedBytes) && nextPart == old(nextPart) && completed == old(completed)
    {
      workers := workers[worker := Failed(workers[worker].part)];
    }
  }

  // ---------------------------------------------------------------- invariant

  function UpTo(n: nat): (s: seq<nat>)
    ensures |s| == n && forall i :: 0 <= i < n ==> s[i] == i
  {
    seq(n, i requires 0 <= i < n => i)
  }

  /** The part that a worker waits for or has lost. */
  function PartOf(w: Worker): Option<nat> {
    match w
    case Sending(part) => Some(part)
    case Failed(part) => Some(part)
    case Finished => None
  }

  predicate HeldBySome(ws: seq<Worker>, part: nat) {
    exists i :: 0 <= i < |ws| && PartOf(ws[i]) == Some(part)
  }

  predicate NoneShared(ws: seq<Worker>) {
    forall i, j :: 0 <= i < j < |ws| && PartOf(ws[i]).Some? ==> PartOf(ws[i]) != PartOf(ws[j])
  }

  /** The bytes of the parts below `n` that are in the set. */
  function TotalBytes(parts: seq<seq<byte>>, indices: set<nat>, n: nat): nat
    requires n <= |parts|
  {
    if n == 0 then 0 else TotalBytes(parts, indices, n - 1) + if n - 1 in indices then |parts[n - 1]| else 0
  }

  /** Every claimed part is held by exactly one worker or it is completed, and only completed
      parts are counted. */
  ghost predicate Consistent(p: Pool, parts: seq<seq<byte>>) {
    && p.nextPart <= |parts|
    && p.sent == UpTo(p.nextPart)
    && (forall part :: part in p.completed ==> part < p.nextPart && !HeldBySome(p.workers, part))
    && (forall part: nat :: HeldBySome(p.workers, part) ==> part < p.nextPart)
    && (forall part: nat :: part < p.nextPart && part !in p.completed ==> HeldBySome(p.workers, part))
    && NoneShared(p.workers)
    && p.uploadedBytes == TotalBytes(parts, p.completed, |parts|)
    && (Finished in p.workers ==> p.nextPart == |parts|)
  }

  lemma UpToSnoc(n: nat)
    ensures UpTo(n + 1) == UpTo(n) + [n]
  {}

  lemma ClaimKeeps(p: Pool, parts: seq<seq<byte>>)
    requires p.nextPart <= |parts| && p.sent == UpTo(p.nextPart)
    ensures Claimed(p, Claim(p, |parts|).0, Claim(p, |parts|).1, parts)
  {
    UpToSnoc(p.nextPart);
  }

  lemma HeldAfterAdding(ws: seq<Worker>, w: Worker, part: nat)
    ensures HeldBySome(ws + [w], part) <==> (HeldBySome(ws, part) || PartOf(w) == Some(part))
  {
    if HeldBySome(ws, part) {
      var i :| 0 <= i < |ws| && PartOf(ws[i]) == Some(part);
      assert PartOf((ws + [w])[i]) == Some(part);
    }
    if PartOf(w) == Some(part) { assert PartOf((ws + [w])[|ws|]) == Some(part); }
  }

  lemma HeldAfterUpdate(ws: seq<Worker>, i: nat, w: Worker, part: nat)
    requires i < |ws|
    requires NoneShared(ws)
    ensures HeldBySome(ws[i := w], part) <==> ((HeldBySome(ws, part) && PartOf(ws[i]) != Some(part)) || PartOf(w) == Some(part))
  {
    var vs := ws[i := w];
    if HeldBySome(ws, part) && PartOf(ws[i]) != Some(part) {
      var j :| 0 <= j < |ws| && PartOf(ws[j]) == Some(part);
      assert PartOf(vs[j]) == Some(part);
    }
    if PartOf(w) == Some(part) { assert PartOf(vs[i]) == Some(part); }
    if HeldBySome(vs, part) && PartOf(w) != Some(part) {
      var j :| 0 <= j < |vs| && PartOf(vs[j]) == Some(part);
      assert PartOf(ws[j]) == Some(part);
    }
  }

  lemma {:induction false} SpawnKeeps(parts: seq<seq<byte>>, count: nat)
    ensures Consistent(Spawn(EMPTY, |parts|, count), parts) && |Spawn(EMPTY, |parts|, count).workers| == count
    decreases count
  {
    hide Claim, UpTo, PartOf, HeldBySome, TotalBytes;
    if count == 0 {
      NothingYet(parts);
    } else {
      SpawnKeeps(parts, count - 1);
      var before := Spawn(EMPTY, |parts|, count - 1);
      var (after, w) := Claim(before, |parts|);
      ClaimKeeps(before, parts);
      WorkerAdded(before, after, w, parts);
    }
  }

  lemma NothingYet(parts: seq<seq<byte>>)
    ensures Consistent(EMPTY, parts)
  {
    assert UpTo(0) == [];
    Unheld([]);
    NoBytes(parts, |parts|);
  }

  lemma Unheld(ws: seq<Worker>)
    requires forall i :: 0 <= i < |ws| ==> ws[i].Finished?
    ensures forall part: nat :: !HeldBySome(ws, part)
  {
    forall part: nat ensures !HeldBySome(ws, part) {}
  }

  lemma {:induction false} NoBytes(parts: seq<seq<byte>>, n: nat)
    requires n <= |parts|
    ensures TotalBytes(parts, {}, n) == 0
  {
    if n > 0 { NoBytes(parts, n - 1); }
  }

  /** What a claim gave, held by nobody yet. */
  ghost predicate Claimed(p: Pool, q: Pool, w: Worker, parts: seq<seq<byte>>) {
    && q == p.(nextPart := q.nextPart, sent := q.sent)
    && q.nextPart <= |parts| && q.sent == UpTo(q.nextPart)
    && ((w == Finished && q.nextPart == p.nextPart == |parts|) ||
        (w == Sending(p.nextPart) && q.nextPart == p.nextPart + 1))
  }

  lemma WorkerAdded(p: Pool, q: Pool, w: Worker, parts: seq<seq<byte>>)
    requires Consistent(p, parts) && Claimed(p, q, w, parts)
    ensures Consistent(q.(workers := p.workers + [w]), parts)
  {
    hide HeldBySome, TotalBytes, UpTo;
    forall part: nat ensures HeldBySome(p.workers + [w], part) <==> (HeldBySome(p.workers, part) || PartOf(w) == Some(part)) {
      HeldAfterAdding(p.workers, w, part);
    }
    HoldersAreHeld(p.workers);
  }

  lemma HoldersAreHeld(ws: seq<Worker>)
    ensures forall i :: 0 <= i < |ws| && PartOf(ws[i]).Some? ==> HeldBySome(ws, PartOf(ws[i]).value)
  {}

  lemma {:induction false} CountOne(parts: seq<seq<byte>>, indices: set<nat>, part: nat, n: nat)
    requires part < n <= |parts| && part !in indices
    ensures TotalBytes(parts, indices + {part}, n) == TotalBytes(parts, indices, n) + |parts[part]|
    decreases n
  {
    if part < n - 1 {
      CountOne(parts, indices, part, n - 1);
    } else {
      SameBytes(parts, indices, indices + {part}, n - 1);
    }
  }

  lemma {:induction false} SameBytes(parts: seq<seq<byte>>, a: set<nat>, b: set<nat>, n: nat)
    requires n <= |parts| && forall i: nat :: i < n ==> (i in a <==> i in b)
    ensures TotalBytes(parts, a, n) == TotalBytes(parts, b, n)
    decreases n
  {
    if n > 0 { SameBytes(parts, a, b, n - 1); }
  }

  lemma StepKeeps(p: Pool, parts: seq<seq<byte>>, step: Step)
    requires Consistent(p, parts)
    ensures Consistent(Do(p, parts, step), parts) && |Do(p, parts, step).workers| == |p.workers|
  {
    hide Claim, UpTo, HeldBySome, TotalBytes;
    if step.worker < |p.workers| && p.workers[step.worker].Sending? {
      var i, part := step.worker, p.workers[step.worker].part;
      HoldersAreHeld(p.workers);
      assert PartOf(p.workers[i]) == Some(part);
      if step.Fails? {
        WorkerFailed(p, i, part, parts);
      } else {
        var after := p.(uploadedBytes := p.uploadedBytes + |parts[part]|, completed := p.completed + {part});
        var (q, w) := Claim(after, |parts|);
        ClaimKeeps(after, parts);
        CountOne(parts, p.completed, part, |parts|);
        WorkerReplaced(p, q, i, part, w, parts);
      }
    }
  }

  lemma WorkerFailed(p: Pool, i: nat, part: nat, parts: seq<seq<byte>>)
    requires Consistent(p, parts) && i < |p.workers| && p.workers[i] == Sending(part)
    ensures Consistent(p.(workers := p.workers[i := Failed(part)]), parts)
  {
    hide HeldBySome, TotalBytes, UpTo;
    var vs := p.workers[i := Failed(part)];
    HoldersAreHeld(p.workers);
    forall x: nat ensures HeldBySome(vs, x) <==> HeldBySome(p.workers, x) {
      HeldAfterUpdate(p.workers, i, Failed(part), x);
    }
    assert forall j :: 0 <= j < |vs| ==> PartOf(vs[j]) == PartOf(p.workers[j]);
    assert forall j :: 0 <= j < |vs| && vs[j] == Finished ==> p.workers[j] == Finished;
  }

  lemma WorkerReplaced(p: Pool, q: Pool, i: nat, part: nat, w: Worker, parts: seq<seq<byte>>)
    requires Consistent(p, parts) && i < |p.workers| && p.workers[i] == Sending(part) && part < |parts|
    requires Claimed(p.(uploadedBytes := p.uploadedBytes + |parts[part]|, completed := p.completed + {part}), q, w, parts)
    requires TotalBytes(parts, p.completed + {part}, |parts|) == p.uploadedBytes + |parts[part]|
    ensures Consistent(q.(workers := p.workers[i := w]), parts)
  {
    hide HeldBySome, TotalBytes, UpTo;
    var vs := p.workers[i := w];
    HoldersAreHeld(p.workers);
    forall x: nat ensures HeldBySome(vs, x) <==> ((HeldBySome(p.workers, x) && x != part) || PartOf(w) == Some(x)) {
      HeldAfterUpdate(p.workers, i, w, x);
    }
  }

  // --------------------------------------------------------------------- runs

  function Run(parts: seq<seq<byte>>, workers: int, steps: seq<Step>): Pool {
    if steps == [] then Start(|parts|, workers)
    else Do(Run(parts, workers, steps[..|steps| - 1]), parts, steps[|steps| - 1])
  }

  function WorkerCount(total: nat, workers: int): nat {
    if workers <= 0 then 0 else if workers < total then workers else total
  }

  /** However the workers interleave, the claimed parts are exactly the first ones, each given
      to invoke once, and each is completed, in flight or lost with one failed worker. */
  lemma {:induction false} EveryRunIsConsistent(parts: seq<seq<byte>>, workers: int, steps: seq<Step>)
    ensures var p := Run(parts, workers, steps); Consistent(p, parts) && |p.workers| == WorkerCount(|parts|, workers)
  {
    hide Consistent, Do, Spawn;
    if steps == [] {
      SpawnKeeps(parts, WorkerCount(|parts|, workers));
      NothingYet(parts);
    } else {
      var k := |steps| - 1;
      EveryRunIsConsistent(parts, workers, steps[..k]);
      StepKeeps(Run(parts, workers, steps[..k]), parts, steps[k]);
    }
  }

  /** The bytes of some parts are at most, and those of all parts exactly, the file's. */
  lemma {:induction false} BytesOfFile(parts: seq<seq<byte>>, indices: set<nat>, n: nat)
    requires n <= |parts|
    ensures TotalBytes(parts, indices, n) <= |Flatten(parts[..n])|
    ensures (forall i: nat :: i < n ==> i in indices) ==> TotalBytes(parts, indices, n) == |Flatten(parts[..n])|
  {
    if n > 0 {
      BytesOfFile(parts, indices, n - 1);
      FlattenSnoc(parts[..n - 1], parts[n - 1]);
      assert parts[..n] == parts[..n - 1] + [parts[n - 1]];
    }
  }

  predicate AllFinished(p: Pool) {
    forall i :: 0 <= i < |p.workers| ==> p.workers[i].Finished?
  }

  ghost predicate AllCompleted(p: Pool, total: nat) {
    forall i: nat :: i in p.completed <==> i < total
  }

  /** The count of uploaded bytes never exceeds the file. Once all workers have finished,
      every part is completed and the count is the file's length, exactly when there was a
      worker to begin with: with none the upload succeeds and sends nothing. */
  lemma UploadCompletes(data: seq<byte>, size: nat, workers: int, steps: seq<Step>)
    requires size > 0
    ensures var parts := Parts(data, size);
            var p := Run(parts, workers, steps);
            && p.uploadedBytes <= |data|
            && (AllFinished(p) ==> (AllCompleted(p, |parts|) && p.uploadedBytes == |data| <==> workers >= 1))
            && (workers < 1 ==> p == EMPTY)
  {
    hide PartsFrom, UpTo, HeldBySome, TotalBytes, Flatten, Do, Start;
    var parts := Parts(data, size);
    var p := Run(parts, workers, steps);
    EveryRunIsConsistent(parts, workers, steps);
    PartsMakeTheFile(data, size);
    BytesOfFile(parts, p.completed, |parts|);
    assert parts[..|parts|] == parts;
    if workers < 1 {
      NothingSent(parts, workers, steps);
      assert 0 !in p.completed;
    } else if AllFinished(p) {
      Unheld(p.workers);
      assert p.workers[0] == Finished;
      assert AllCompleted(p, |parts|);
    }
  }

  lemma {:induction false} NothingSent(parts: seq<seq<byte>>, workers: int, steps: seq<Step>)
    requires workers <= 0
    ensures Run(parts, workers, steps) == EMPTY
  {
    if steps != [] { NothingSent(parts, workers, steps[..|steps| - 1]); }
  }
}
