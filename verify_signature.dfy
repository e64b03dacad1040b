/** verifySignature: copies a signature and a message into the module's
    memory, runs the engine's verification on them with a caller-owned public
    key, and reports whether the signature is valid. Both scratch regions are
    freed on every exit once they have been allocated. */
module VerifySignature {
  import opened Memory
  import opened Types
  import opened DilithiumApi

  /** The calls verifySignature makes when malloc answers sigPtr and msgPtr,
      and verify (if it is reached) is given `signature` and `message` in
      `memory` and answers status. */
  function VerifyLog(sigPtr: nat, msgPtr: nat, pk: nat, signature: seq<byte>, message: seq<byte>,
                     memory: seq<byte>, status: int): seq<Call>
  {
    [MallocCall(|signature|, sigPtr)] + ([MallocCall(|message|, msgPtr)]
    + VerifyTail(sigPtr, msgPtr, pk, signature, message, memory, status))
  }

  /** The calls verifySignature makes after its two allocations: the release
      of whatever was allocated when one of them failed, and otherwise verify
      followed by the two frees of the finally block. */
  function VerifyTail(sigPtr: nat, msgPtr: nat, pk: nat, signature: seq<byte>, message: seq<byte>,
                      memory: seq<byte>, status: int): seq<Call>
  {
    if sigPtr == 0 || msgPtr == 0 then
      ReleaseLog(sigPtr) + ReleaseLog(msgPtr)
    else
      [VerifyCall(sigPtr, |signature|, msgPtr, |message|, pk, signature, message, memory, status)]
      + ([FreeCall(sigPtr)] + [FreeCall(msgPtr)])
  }

  /** What the observers read from the whole run: the two allocations, in
      order, followed by the calls after them. */
  lemma VerifyObserved(sigPtr: nat, msgPtr: nat, pk: nat, signature: seq<byte>, message: seq<byte>,
                       memory: seq<byte>, status: int)
    ensures Requests(VerifyLog(sigPtr, msgPtr, pk, signature, message, memory, status))
            == [|signature|] + [|message|]
    ensures Acquired(VerifyLog(sigPtr, msgPtr, pk, signature, message, memory, status))
            == NonNull(sigPtr) + NonNull(msgPtr)
    ensures Released(VerifyLog(sigPtr, msgPtr, pk, signature, message, memory, status))
            == NonNull(sigPtr) + NonNull(msgPtr)
    ensures Invocations(VerifyLog(sigPtr, msgPtr, pk, signature, message, memory, status))
            == if sigPtr != 0 && msgPtr != 0
               then [VerifyCall(sigPtr, |signature|, msgPtr, |message|, pk, signature, message, memory, status)]
               else []
  {
    var m2 := MallocCall(|message|, msgPtr);
    var tail := VerifyTail(sigPtr, msgPtr, pk, signature, message, memory, status);
    ObservePrepend(MallocCall(|signature|, sigPtr), [m2] + tail);
    ObservePrepend(m2, tail);
    if sigPtr == 0 || msgPtr == 0 {
      ObserveAppend(ReleaseLog(sigPtr), ReleaseLog(msgPtr));
    } else {
      ObservePrepend(VerifyCall(sigPtr, |signature|, msgPtr, |message|, pk, signature, message, memory, status),
                     [FreeCall(sigPtr)] + [FreeCall(msgPtr)]);
      ObservePrepend(FreeCall(sigPtr), [FreeCall(msgPtr)]);
      ObserveOne(FreeCall(msgPtr));
    }
  }

  /** Exactly two regions are requested: one as long as the signature, then
      one as long as the encoded message. */
  lemma VerifyRequests(sigPtr: nat, msgPtr: nat, pk: nat, signature: seq<byte>, message: seq<byte>,
                       memory: seq<byte>, status: int)
    ensures Requests(VerifyLog(sigPtr, msgPtr, pk, signature, message, memory, status))
            == [|signature|, |message|]
  {
    VerifyObserved(sigPtr, msgPtr, pk, signature, message, memory, status);
  }

  /** verify runs exactly once, on the signature and message bytes as given,
      when both allocations succeed, and not at all when either fails. */
  lemma VerifyInvocations(sigPtr: nat, msgPtr: nat, pk: nat, signature: seq<byte>, message: seq<byte>,
                          memory: seq<byte>, status: int)
    ensures Invocations(VerifyLog(sigPtr, msgPtr, pk, signature, message, memory, status))
            == if sigPtr != 0 && msgPtr != 0
               then [VerifyCall(sigPtr, |signature|, msgPtr, |message|, pk, signature, message, memory, status)]
               else []
  {
    VerifyObserved(sigPtr, msgPtr, pk, signature, message, memory, status);
  }

  /** A binary message reaches verify byte for byte, whatever the text
      encoder is: only text goes through it. */
  lemma VerifiesBinaryAsGiven(sigPtr: nat, msgPtr: nat, pk: nat, signature: seq<byte>, bytes: seq<byte>,
                              encode: string -> seq<byte>, memory: seq<byte>, status: int)
    requires sigPtr != 0 && msgPtr != 0
    ensures Invocations(VerifyLog(sigPtr, msgPtr, pk, signature, MessageBytes(Binary(bytes), encode),
                                  memory, status))
            == [VerifyCall(sigPtr, |signature|, msgPtr, |bytes|, pk, signature, bytes, memory, status)]
  {
    VerifyInvocations(sigPtr, msgPtr, pk, signature, MessageBytes(Binary(bytes), encode), memory, status);
  }

  /** malloc hands out a non-null address for each of the two regions it
      manages to allocate, in allocation order. */
  lemma VerifyAcquired(sigPtr: nat, msgPtr: nat, pk: nat, signature: seq<byte>, message: seq<byte>,
                       memory: seq<byte>, status: int)
    ensures Acquired(VerifyLog(sigPtr, msgPtr, pk, signature, message, memory, status))
            == NonNull(sigPtr) + NonNull(msgPtr)
  {
    VerifyObserved(sigPtr, msgPtr, pk, signature, message, memory, status);
  }

  /** Every region malloc handed out is freed exactly once, in allocation
      order, whatever the outcome, and nothing else is freed. */
  lemma VerifyReleased(sigPtr: nat, msgPtr: nat, pk: nat, signature: seq<byte>, message: seq<byte>,
                       memory: seq<byte>, status: int)
    ensures Released(VerifyLog(sigPtr, msgPtr, pk, signature, message, memory, status))
            == NonNull(sigPtr) + NonNull(msgPtr)
  {
    VerifyObserved(sigPtr, msgPtr, pk, signature, message, memory, status);
  }

  /** Only the two scratch regions are freed: a public-key handle that is
      neither of them is never freed. */
  lemma VerifySparesKey(sigPtr: nat, msgPtr: nat, pk: nat, signature: seq<byte>, message: seq<byte>,
                        memory: seq<byte>, status: int)
    requires pk != sigPtr && pk != msgPtr
    ensures pk !in Released(VerifyLog(sigPtr, msgPtr, pk, signature, message, memory, status))
  {
    VerifyReleased(sigPtr, msgPtr, pk, signature, message, memory, status);
    assert pk !in NonNull(sigPtr) && pk !in NonNull(msgPtr);
  }

  /** The log of a run in which an allocation failed, call by call. */
  lemma VerifyLogReleased(log0: seq<Call>, sigPtr: nat, msgPtr: nat, pk: nat, signature: seq<byte>,
                          message: seq<byte>, memory: seq<byte>, status: int)
    requires sigPtr == 0 || msgPtr == 0
    ensures log0 + [MallocCall(|signature|, sigPtr)] + [MallocCall(|message|, msgPtr)]
            + ReleaseLog(sigPtr) + ReleaseLog(msgPtr)
            == log0 + VerifyLog(sigPtr, msgPtr, pk, signature, message, memory, status)
  {
    var s, m := ReleaseLog(sigPtr), ReleaseLog(msgPtr);
    assert log0 + [MallocCall(|signature|, sigPtr)] + [MallocCall(|message|, msgPtr)] + s + m
           == log0 + ([MallocCall(|signature|, sigPtr)] + ([MallocCall(|message|, msgPtr)] + (s + m)));
  }

  /** The log of a run that reached verify, call by call. */
  lemma VerifyLogVerified(log0: seq<Call>, sigPtr: nat, msgPtr: nat, pk: nat, signature: seq<byte>,
                          message: seq<byte>, memory: seq<byte>, status: int)
    requires sigPtr != 0 && msgPtr != 0
    ensures log0 + [MallocCall(|signature|, sigPtr)] + [MallocCall(|message|, msgPtr)]
            + [VerifyCall(sigPtr, |signature|, msgPtr, |message|, pk, signature, message, memory, status)]
            + [FreeCall(sigPtr)] + [FreeCall(msgPtr)]
            == log0 + VerifyLog(sigPtr, msgPtr, pk, signature, message, memory, status)
  {
  }

  /** Copying the signature and then the message into two disjoint regions
      leaves both in place: the second copy does not disturb the first. */
  lemma CopiesInPlace(mem: seq<byte>, sigPtr: nat, signature: seq<byte>, msgPtr: nat, message: seq<byte>)
    requires sigPtr + |signature| <= |mem| && msgPtr + |message| <= |mem|
    requires Disjoint(sigPtr, |signature|, msgPtr, |message|)
    ensures |Overwrite(Overwrite(mem, sigPtr, signature), msgPtr, message)| == |mem|
    ensures Overwrite(Overwrite(mem, sigPtr, signature), msgPtr, message)[sigPtr .. sigPtr + |signature|]
            == signature
    ensures Overwrite(Overwrite(mem, sigPtr, signature), msgPtr, message)[msgPtr .. msgPtr + |message|]
            == message
  {
    var copied := Overwrite(mem, sigPtr, signature);
    assert Disjoint(msgPtr, |message|, sigPtr, |signature|);
    OverwriteElsewhere(copied, msgPtr, message, sigPtr, |signature|);
  }

  /** What the copy-in means for the public key: when neither scratch region
      overlaps a region live before the call (as VerifySignature ensures),
      the bytes of a live key handle reach verify exactly as they were. */
  lemma KeyReachesVerify(mem: seq<byte>, live: map<nat, nat>, sigPtr: nat, signature: seq<byte>,
                         msgPtr: nat, message: seq<byte>, key: nat)
    requires sigPtr + |signature| <= |mem| && msgPtr + |message| <= |mem|
    requires key in live && key + live[key] <= |mem|
    requires forall q :: q in live ==> Disjoint(sigPtr, |signature|, q, live[q])
    requires forall q :: q in live ==> Disjoint(msgPtr, |message|, q, live[q])
    ensures Overwrite(Overwrite(mem, sigPtr, signature), msgPtr, message)[key .. key + live[key]]
            == mem[key .. key + live[key]]
  {
    OverwriteElsewhere(mem, sigPtr, signature, key, live[key]);
    OverwriteElsewhere(Overwrite(mem, sigPtr, signature), msgPtr, message, key, live[key]);
  }

  /** The try block of verifySignature: copies the signature and then the
      message into their regions and runs verify on them. The ghost results
      are the memory verify was given and what it returned. */
  method VerifyInScratch(api: Api, sigPtr: nat, msgPtr: nat, signature: seq<byte>, message: seq<byte>,
                         pk: nat)
    returns (valid: bool, ghost seen: seq<byte>, ghost status: int)
    requires api.Valid() && sigPtr != msgPtr
    requires sigPtr in api.live && api.live[sigPtr] == |signature|
    requires msgPtr in api.live && api.live[msgPtr] == |message|
    modifies api`log, api.heap
    ensures api.Valid()
    ensures sigPtr + |signature| <= api.heap.Length && msgPtr + |message| <= api.heap.Length
    ensures seen == Overwrite(Overwrite(old(api.heap[..]), sigPtr, signature), msgPtr, message)
    ensures api.log == old(api.log) + [VerifyCall(sigPtr, |signature|, msgPtr, |message|, pk,
                                                  signature, message, seen, status)]
    ensures valid <==> status == 0
  {
    CopiesInPlace(api.heap[..], sigPtr, signature, msgPtr, message);
    api.SetBytes(signature, sigPtr);
    api.SetBytes(message, msgPtr);
    seen := api.heap[..];

    var result := api.Verify(sigPtr, |signature|, msgPtr, |message|, pk);
    status := result;
    valid := result == 0;
  }

  /** The marshaler. `encode` is the text encoder used for text messages.
      Besides the result it yields, as ghost values, what malloc returned for
      the signature region and the message region, the memory verify was
      given and what verify returned ([] and 0 when verify is not reached). */
  method VerifySignature(api: Api, signature: seq<byte>, message: Message, publicKeyPtr: nat,
                         encode: string -> seq<byte>)
    returns (r: Result<bool>, ghost sigPtr: nat, ghost msgPtr: nat, ghost seen: seq<byte>, ghost status: int)
    requires api.Valid()
    modifies api, api.heap
    ensures api.Valid() && api.heap == old(api.heap)
    ensures api.log == old(api.log) + VerifyLog(sigPtr, msgPtr, publicKeyPtr, signature,
                                                MessageBytes(message, encode), seen, status)
    ensures r.Err? <==> sigPtr == 0 || msgPtr == 0
    ensures r.Err? ==> r.error == AllocationError
    ensures r.Ok? ==> (r.value <==> status == 0)
    ensures api.live == old(api.live)
    ensures sigPtr !in old(api.live) && msgPtr !in old(api.live)
    ensures sigPtr != 0 && msgPtr != 0 ==>
              sigPtr + |signature| <= api.heap.Length &&
              msgPtr + |MessageBytes(message, encode)| <= api.heap.Length &&
              seen == Overwrite(Overwrite(old(api.heap[..]), sigPtr, signature),
                                msgPtr, MessageBytes(message, encode))
    ensures sigPtr != 0 ==> forall q :: q in old(api.live) ==>
              Disjoint(sigPtr, |signature|, q, old(api.live)[q])
    ensures msgPtr != 0 ==> forall q :: q in old(api.live) ==>
              Disjoint(msgPtr, |MessageBytes(message, encode)|, q, old(api.live)[q])
    ensures r.Err? ==> api.heap[..] == old(api.heap[..])
  {
    ghost var live0, log0 := api.live, api.log;
    var messageBytes := MessageBytes(message, encode);

    var signaturePtr := api.Malloc(|signature|);
    var messagePtr := api.Malloc(|messageBytes|);
    sigPtr, msgPtr, seen, status := signaturePtr, messagePtr, [], 0;

    if signaturePtr == 0 || messagePtr == 0 {
      ReleaseIfAllocated(api, signaturePtr);
      ReleaseIfAllocated(api, messagePtr);
      UndoTwo(live0, sigPtr, |signature|, msgPtr, |messageBytes|);
      VerifyLogReleased(log0, sigPtr, msgPtr, publicKeyPtr, signature, messageBytes, seen, status);
      return Err(AllocationError), sigPtr, msgPtr, seen, status;
    }

    // try
    var valid;
    valid, seen, status := VerifyInScratch(api, signaturePtr, messagePtr, signature, messageBytes,
                                           publicKeyPtr);
    r := Ok(valid);

    // finally
    api.Free(signaturePtr);
    api.Free(messagePtr);
    UndoTwo(live0, sigPtr, |signature|, msgPtr, |messageBytes|);
    VerifyLogVerified(log0, sigPtr, msgPtr, publicKeyPtr, signature, messageBytes, seen, status);
  }
}
