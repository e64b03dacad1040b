/** generateKeypair: allocates the two key regions, runs the engine's key
    generation into them and hands both addresses to the caller, who owns
    them from then on. */
module GenerateKeyPair {
  import opened Memory
  import opened Dilithium2
  import opened Types
  import opened DilithiumApi

  /** The two key handles: addresses of live regions the caller now owns. */
  datatype KeyPair = KeyPair(publicKeyPtr: nat, secretKeyPtr: nat)

  /** The calls generateKeypair makes when malloc answers pk and then sk, and
      keypair (if it is reached) is given `memory` and answers status. */
  function KeypairLog(pk: nat, sk: nat, memory: seq<byte>, status: int): seq<Call>
  {
    [MallocCall(PUBLIC_KEY_SIZE, pk)] + ([MallocCall(SECRET_KEY_SIZE, sk)]
    + KeypairTail(pk, sk, memory, status))
  }

  /** The calls generateKeypair makes after its two allocations: the release
      of whatever was allocated when one of them failed, and otherwise keypair,
      followed by two frees when it failed. */
  function KeypairTail(pk: nat, sk: nat, memory: seq<byte>, status: int): seq<Call>
  {
    if pk == 0 || sk == 0 then
      ReleaseLog(pk) + ReleaseLog(sk)
    else
      [KeypairCall(pk, sk, memory, status)] + (if status != 0 then [FreeCall(pk)] + [FreeCall(sk)] else [])
  }

  /** What the observers read from the calls after the two allocations. */
  lemma KeypairTailObserved(pk: nat, sk: nat, memory: seq<byte>, status: int)
    ensures Requests(KeypairTail(pk, sk, memory, status)) == []
    ensures Acquired(KeypairTail(pk, sk, memory, status)) == []
    ensures Released(KeypairTail(pk, sk, memory, status))
            == if pk != 0 && sk != 0 && status == 0 then [] else NonNull(pk) + NonNull(sk)
    ensures Invocations(KeypairTail(pk, sk, memory, status))
            == if pk != 0 && sk != 0 then [KeypairCall(pk, sk, memory, status)] else []
  {
    if pk == 0 || sk == 0 {
      ObserveAppend(ReleaseLog(pk), ReleaseLog(sk));
    } else if status != 0 {
      ObservePrepend(KeypairCall(pk, sk, memory, status), [FreeCall(pk)] + [FreeCall(sk)]);
      ObservePrepend(FreeCall(pk), [FreeCall(sk)]);
      ObserveOne(FreeCall(sk));
    } else {
      ObserveOne(KeypairCall(pk, sk, memory, status));
    }
  }

  /** Exactly two regions are requested: 1312 bytes, then 2560 bytes. */
  lemma KeypairRequests(pk: nat, sk: nat, memory: seq<byte>, status: int)
    ensures Requests(KeypairLog(pk, sk, memory, status)) == [PUBLIC_KEY_SIZE, SECRET_KEY_SIZE]
  {
    var tail := KeypairTail(pk, sk, memory, status);
    ObservePrepend(MallocCall(PUBLIC_KEY_SIZE, pk), [MallocCall(SECRET_KEY_SIZE, sk)] + tail);
    ObservePrepend(MallocCall(SECRET_KEY_SIZE, sk), tail);
    KeypairTailObserved(pk, sk, memory, status);
  }

  /** keypair runs exactly once, on (pk, sk) in that order and on memory as
      it was on entry, when both allocations succeed, and not at all when
      either fails. */
  lemma KeypairInvocations(pk: nat, sk: nat, memory: seq<byte>, status: int)
    ensures Invocations(KeypairLog(pk, sk, memory, status))
            == if pk != 0 && sk != 0 then [KeypairCall(pk, sk, memory, status)] else []
  {
    var tail := KeypairTail(pk, sk, memory, status);
    ObservePrepend(MallocCall(PUBLIC_KEY_SIZE, pk), [MallocCall(SECRET_KEY_SIZE, sk)] + tail);
    ObservePrepend(MallocCall(SECRET_KEY_SIZE, sk), tail);
    KeypairTailObserved(pk, sk, memory, status);
  }

  /** Whatever malloc handed out is freed again, in allocation order, unless
      key generation succeeded; then nothing is freed and both regions pass
      to the caller. */
  lemma KeypairOwnership(pk: nat, sk: nat, memory: seq<byte>, status: int)
    ensures Acquired(KeypairLog(pk, sk, memory, status)) == NonNull(pk) + NonNull(sk)
    ensures Released(KeypairLog(pk, sk, memory, status))
            == if pk != 0 && sk != 0 && status == 0 then [] else NonNull(pk) + NonNull(sk)
  {
    var tail := KeypairTail(pk, sk, memory, status);
    ObservePrepend(MallocCall(PUBLIC_KEY_SIZE, pk), [MallocCall(SECRET_KEY_SIZE, sk)] + tail);
    ObservePrepend(MallocCall(SECRET_KEY_SIZE, sk), tail);
    KeypairTailObserved(pk, sk, memory, status);
  }

  /** The log of a run in which an allocation failed, call by call. */
  lemma KeypairLogReleased(log0: seq<Call>, pk: nat, sk: nat, memory: seq<byte>, status: int)
    requires pk == 0 || sk == 0
    ensures log0 + [MallocCall(PUBLIC_KEY_SIZE, pk)] + [MallocCall(SECRET_KEY_SIZE, sk)]
            + ReleaseLog(pk) + ReleaseLog(sk)
            == log0 + KeypairLog(pk, sk, memory, status)
  {
    var p, s := ReleaseLog(pk), ReleaseLog(sk);
    assert log0 + [MallocCall(PUBLIC_KEY_SIZE, pk)] + [MallocCall(SECRET_KEY_SIZE, sk)] + p + s
           == log0 + ([MallocCall(PUBLIC_KEY_SIZE, pk)] + ([MallocCall(SECRET_KEY_SIZE, sk)] + (p + s)));
  }

  /** The log of a run in which keypair failed, call by call. */
  lemma KeypairLogFailed(log0: seq<Call>, pk: nat, sk: nat, memory: seq<byte>, status: int)
    requires pk != 0 && sk != 0 && status != 0
    ensures log0 + [MallocCall(PUBLIC_KEY_SIZE, pk)] + [MallocCall(SECRET_KEY_SIZE, sk)]
            + [KeypairCall(pk, sk, memory, status)] + [FreeCall(pk)] + [FreeCall(sk)]
            == log0 + KeypairLog(pk, sk, memory, status)
  {
  }

  /** The log of a run in which key generation succeeded, call by call. */
  lemma KeypairLogGenerated(log0: seq<Call>, pk: nat, sk: nat, memory: seq<byte>)
    requires pk != 0 && sk != 0
    ensures log0 + [MallocCall(PUBLIC_KEY_SIZE, pk)] + [MallocCall(SECRET_KEY_SIZE, sk)]
            + [KeypairCall(pk, sk, memory, 0)]
            == log0 + KeypairLog(pk, sk, memory, 0)
  {
  }

  /** The marshaler. Besides the result it yields, as ghost values, what
      malloc returned for the two regions, the memory keypair was given and
      what keypair returned ([] and 0 when keypair is not reached). */
  method GenerateKeypair(api: Api)
    returns (r: Result<KeyPair>, ghost pk: nat, ghost sk: nat, ghost seen: seq<byte>, ghost status: int)
    requires api.Valid()
    modifies api, api.heap
    ensures api.Valid() && api.heap == old(api.heap)
    ensures api.log == old(api.log) + KeypairLog(pk, sk, seen, status)
    ensures r.Ok? <==> pk != 0 && sk != 0 && status == 0
    ensures r == Err(AllocationError) <==> pk == 0 || sk == 0
    ensures r == Err(GenerationError) <==> pk != 0 && sk != 0 && status != 0
    ensures r.Ok? ==> r.value == KeyPair(pk, sk)
    ensures r.Ok? ==> pk != sk && pk !in old(api.live) && sk !in old(api.live)
    ensures r.Ok? ==> api.live == old(api.live)[pk := PUBLIC_KEY_SIZE][sk := SECRET_KEY_SIZE]
    ensures !r.Ok? ==> api.live == old(api.live)
    ensures pk != 0 && sk != 0 ==> seen == old(api.heap[..])
    ensures r == Err(AllocationError) ==> api.heap[..] == old(api.heap[..])
  {
    ghost var live0, log0 := api.live, api.log;

    var publicKeyPtr := api.Malloc(PUBLIC_KEY_SIZE);
    var secretKeyPtr := api.Malloc(SECRET_KEY_SIZE);
    pk, sk, seen, status := publicKeyPtr, secretKeyPtr, [], 0;

    if publicKeyPtr == 0 || secretKeyPtr == 0 {
      ReleaseIfAllocated(api, publicKeyPtr);
      ReleaseIfAllocated(api, secretKeyPtr);
      UndoTwo(live0, pk, PUBLIC_KEY_SIZE, sk, SECRET_KEY_SIZE);
      KeypairLogReleased(log0, pk, sk, seen, status);
      return Err(AllocationError), pk, sk, seen, status;
    }

    seen := api.heap[..];
    var result := api.Keypair(publicKeyPtr, secretKeyPtr);
    status := result;

    if result != 0 {
      api.Free(publicKeyPtr);
      api.Free(secretKeyPtr);
      UndoTwo(live0, pk, PUBLIC_KEY_SIZE, sk, SECRET_KEY_SIZE);
      KeypairLogFailed(log0, pk, sk, seen, status);
      return Err(GenerationError), pk, sk, seen, status;
    }

    KeypairLogGenerated(log0, pk, sk, seen);
    r := Ok(KeyPair(publicKeyPtr, secretKeyPtr));
  }
}
