/** The last steps of the key exchange: the client checks the server's parameters, draws an
    exponent, sends g_b and repeats while the server answers dh_gen_retry. */
module KeyExchange {
  import opened AuthKey
  import opened Bytes
  import opened DiffieHellman
  import opened NumberTheory
  import opened Options

  /** Both bounds are allowed values; the protocol text asks for a strict inequality. */
  predicate IsGoodGa(ga: int, dhPrime: int) {
    var boundary := Pow(2, 2048 - 64);
    1 < ga < dhPrime - 1 && boundary <= ga <= dhPrime - boundary
  }

  /** For a 2048-bit prime the check lets through what the protocol text asks for, strictly
      between the bounds, and the two bounds that the text excludes. */
  lemma BoundsAreAccepted(ga: int, dhPrime: int)
    requires dhPrime >= Pow(2, 2047)
    ensures var strictly := 1 < ga < dhPrime - 1 && Pow(2, 1984) < ga < dhPrime - Pow(2, 1984);
            && (strictly ==> IsGoodGa(ga, dhPrime))
            && (IsGoodGa(ga, dhPrime) && !strictly <==> ga == Pow(2, 1984) || ga == dhPrime - Pow(2, 1984))
  {
    PowAdd(2, 1984, 63);
    PowPositive(2, 1984);
    PowMonotone(2, 1, 1984);
    PowMonotone(2, 2, 63);
    SmallPowers();
    assert Pow(2, 63) >= 4;
    assert Pow(2, 1984) * Pow(2, 63) >= Pow(2, 1984) * 4;
  }

  lemma SmallPowers()
    ensures Pow(2, 1) == 2 && Pow(2, 2) == 4
  {
    assert Pow(2, 1) == 2 * Pow(2, 0);
    assert Pow(2, 2) == 2 * Pow(2, 1);
  }

  datatype ReplyKind = GenOk | GenRetry | GenFail | Unexpected

  /** The server's answer to set_client_DH_params, its nonces compared already. */
  datatype Reply = Reply(kind: ReplyKind, newNonceHash: seq<byte>)

  /** What one attempt sends. */
  datatype ClientParams = ClientParams(retryId: int, gb: int)

  const MAX_RETRIES := 10

  /** The server's parameters, and attempt by attempt the exponents that the client will draw
      and the answers it will get. */
  datatype Exchange = Exchange(sha1: seq<byte> -> seq<byte>, newNonce: seq<byte>, g: int, ga: int, dhPrime: int,
                               draws: seq<nat>, replies: seq<Reply>)
  {
    ghost predicate Valid() {
      (forall s :: |sha1(s)| == 20) && dhPrime > 0 && |draws| == |replies| == MAX_RETRIES
    }

    function Gb(i: nat): int
      requires dhPrime > 0 && i < |draws|
    {
      Pow(g, draws[i]) % dhPrime
    }

    function Key(i: nat): seq<byte>
      requires dhPrime > 0 && i < |draws|
    {
      SharedKey(ga, draws[i], dhPrime)
    }

    function AuxHash(key: seq<byte>): (r: seq<byte>)
      requires Valid()
      ensures |r| == 8
    {
      sha1(key)[..8]
    }

    /** The answer is of this kind and its hash proves that the server holds the same key. */
    predicate Verified(key: seq<byte>, reply: Reply, kind: ReplyKind)
      requires Valid()
    {
      var tag := match kind case GenOk => 1 case GenRetry => 2 case _ => 3;
      reply.kind == kind && reply.newNonceHash == sha1(newNonce + [tag] + AuxHash(key))[4..]
    }

    predicate Confirmed(i: nat)
      requires Valid() && i < MAX_RETRIES
    {
      Verified(Key(i), replies[i], GenOk)
    }

    predicate Retried(i: nat)
      requires Valid() && i < MAX_RETRIES
    {
      Verified(Key(i), replies[i], GenRetry)
    }

    function RetryId(i: nat): int
      requires Valid() && i < MAX_RETRIES
    {
      if i == 0 then 0 else GetInt(AuxHash(Key(i - 1)))
    }

    function Attempts(n: nat): (sent: seq<ClientParams>)
      requires Valid() && n <= MAX_RETRIES
      ensures |sent| == n
    {
      if n == 0 then [] else Attempts(n - 1) + [ClientParams(RetryId(n - 1), Gb(n - 1))]
    }

    lemma Start()
      requires Valid()
      ensures RetryId(0) == 0
    {}

    lemma OneOutcome(i: nat)
      requires Valid() && i < MAX_RETRIES
      ensures !(Confirmed(i) && Retried(i))
    {}

    /** Whoever knows the exponent behind g_a computes the key of an attempt from its g_b. */
    lemma ServerAgrees(i: nat)
      requires dhPrime < Pow(2, 2048) && Valid() && i < MAX_RETRIES
      ensures |Key(i)| == 256
      ensures forall a: nat :: ga == Pow(g, a) % dhPrime ==> Key(i) == SharedKey(Gb(i), a, dhPrime)
    {
      hide Pow, BigintToFixedBuffer, SharedKey;
      KeyLength(ga, draws[i], dhPrime);
      forall a: nat | ga == Pow(g, a) % dhPrime ensures Key(i) == SharedKey(Gb(i), a, dhPrime) {
        AuthKeysAgree(g, a, draws[i], dhPrime);
      }
    }
  }

  lemma KeyLength(peer: int, secret: nat, p: int)
    requires 0 < p < Pow(2, 2048)
    ensures |SharedKey(peer, secret, p)| == 256
  {
    hide Pow, BigintToFixedBuffer;
    BytePowers(256);
    FixedRoundTrip(Pow(peer, secret) % p, 256);
  }

  /** The numbers of one attempt, before the server's answer to it. */
  method Draw(x: Exchange, attempt: nat) returns (gb: int, authKey: seq<byte>)
    requires x.Valid() && attempt < MAX_RETRIES
    ensures gb == x.Gb(attempt) && authKey == x.Key(attempt)
  {
    hide Pow, BigintToFixedBuffer;
    gb := ModPow(x.g, x.draws[attempt], x.dhPrime);
    var k := ModPow(x.ga, x.draws[attempt], x.dhPrime);
    authKey := BigintToFixedBuffer(k, 256);
  }

  /** What the client does with the answer: the key, or the next retry id, or neither. */
  method Judge(x: Exchange, attempt: nat, authKey: seq<byte>) returns (done: bool, retryId: int)
    requires x.Valid() && attempt < MAX_RETRIES && authKey == x.Key(attempt)
    ensures done == !x.Retried(attempt)
    ensures !done && attempt + 1 < MAX_RETRIES ==> retryId == x.RetryId(attempt + 1)
  {
    hide SharedKey, GetInt;
    match x.replies[attempt].kind {
      case GenOk => return true, 0;
      case GenRetry =>
        if !x.Verified(authKey, x.replies[attempt], GenRetry) { return true, 0; }
        return false, GetInt(x.AuxHash(authKey));
      case GenFail => return true, 0;
      case Unexpected => return true, 0;
    }
  }

  /** Answer `i` is of this kind and carries the 16 bytes of a SHA-1 over the nonce, the tag and
      the first 8 bytes of the SHA-1 of the key of attempt `i`. */
  ghost predicate AnswersWith(x: Exchange, i: nat, kind: ReplyKind, tag: byte)
    requires x.Valid() && i < MAX_RETRIES
  {
    var key := SharedKey(x.ga, x.draws[i], x.dhPrime);
    && x.replies[i].kind == kind
    && x.replies[i].newNonceHash == x.sha1(x.newNonce + [tag] + x.sha1(key)[..8])[4..20]
  }

  /** What attempt `i` sends, from the draws and the key of the attempt before. */
  ghost predicate SendsFor(x: Exchange, i: nat, params: ClientParams)
    requires x.Valid() && i < MAX_RETRIES
  {
    && params.gb == Pow(x.g, x.draws[i]) % x.dhPrime
    && params.retryId == if i == 0 then 0 else GetInt(x.sha1(SharedKey(x.ga, x.draws[i - 1], x.dhPrime))[..8])
  }

  lemma AnswersMean(x: Exchange)
    requires x.Valid()
    ensures forall i: nat :: i < MAX_RETRIES ==> (x.Confirmed(i) <==> AnswersWith(x, i, GenOk, 1))
    ensures forall i: nat :: i < MAX_RETRIES ==> (x.Retried(i) <==> AnswersWith(x, i, GenRetry, 2))
    ensures forall i: nat :: i < MAX_RETRIES ==> x.Key(i) == SharedKey(x.ga, x.draws[i], x.dhPrime)
  {
    hide SharedKey;
  }

  lemma {:induction false} AttemptsSend(x: Exchange, n: nat)
    requires x.Valid() && n <= MAX_RETRIES
    ensures forall i: nat :: i < n ==> SendsFor(x, i, x.Attempts(n)[i])
  {
    hide SharedKey, Pow, GetInt;
    if n > 0 { AttemptsSend(x, n - 1); }
  }

  /** The attempts made are the longest run that the checks and the answers allow; the key
      returned is the one of the last attempt, and only a dh_gen_ok with the right hash yields
      it. A retry needs the right hash too. */
  method AgreeOnKey(x: Exchange) returns (key: Option<seq<byte>>, sent: seq<ClientParams>)
    requires x.Valid()
    ensures |sent| <= 10 && sent == x.Attempts(|sent|)
    ensures forall i :: 0 <= i < |sent| ==> IsGoodGa(x.Gb(i), x.dhPrime)
    ensures forall i :: 0 <= i < |sent| - 1 ==> x.Retried(i)
    ensures key == if sent != [] && x.Confirmed(|sent| - 1) then Some(x.Key(|sent| - 1)) else None
    ensures key.Some? <==> sent != [] && AnswersWith(x, |sent| - 1, GenOk, 1)
    ensures key.Some? ==> key.value == SharedKey(x.ga, x.draws[|sent| - 1], x.dhPrime)
    ensures forall i: nat :: i < |sent| - 1 ==> AnswersWith(x, i, GenRetry, 2)
    ensures forall i: nat :: i < |sent| ==> SendsFor(x, i, sent[i])
    ensures (0 < |sent| < 10 && x.Retried(|sent| - 1)) ==> !IsGoodGa(x.Gb(|sent|), x.dhPrime)
    ensures sent != [] <==> (PassesChecks(x.dhPrime, x.g) && IsGoodGa(x.ga, x.dhPrime) && IsGoodGa(x.Gb(0), x.dhPrime))
  {
    hide Pow, IsGoodGa, ResidueFits, ProbablePrime;
    hide Exchange.Key, Exchange.Gb, Exchange.RetryId, Exchange.Retried, Exchange.Confirmed, Exchange.Verified;
    hide AnswersWith, SendsFor, SharedKey;
    AnswersMean(x);
    forall n: nat, i: nat | n <= MAX_RETRIES && i < n ensures SendsFor(x, i, x.Attempts(n)[i]) { AttemptsSend(x, n); }
    sent := [];
    x.Start();
    var good := IsGoodPrime(x.dhPrime, x.g);
    if !good || !IsGoodGa(x.ga, x.dhPrime) { return None, sent; }
    var retryId := 0;
    for attempt := 0 to MAX_RETRIES
      invariant sent == x.Attempts(attempt)
      invariant attempt < MAX_RETRIES ==> retryId == x.RetryId(attempt)
      invariant forall i :: 0 <= i < attempt ==> IsGoodGa(x.Gb(i), x.dhPrime) && x.Retried(i)
      invariant PassesChecks(x.dhPrime, x.g) && IsGoodGa(x.ga, x.dhPrime)
    {
      if attempt > 0 { x.OneOutcome(attempt - 1); }
      var gb, authKey := Draw(x, attempt);
      if !IsGoodGa(gb, x.dhPrime) { return None, sent; }
      sent := sent + [ClientParams(retryId, gb)];
      x.OneOutcome(attempt);
      if x.Confirmed(attempt) { return Some(authKey), sent; }
      var done;
      done, retryId := Judge(x, attempt, authKey);
      if done { return None, sent; }
    }
    x.OneOutcome(MAX_RETRIES - 1);
    return None, sent;
  }
}
