/** signMessage: copies a message into the module's memory, runs the engine's
    signing on it with a caller-owned secret key, and returns the signature as
    a fresh byte sequence. All three scratch regions are freed on every exit
    once they have been allocated. */
module SignMessage {
  import opened Memory
  import opened Dilithium2
  import opened Types
  import opened DilithiumApi

  /** The calls signMessage makes when malloc answers msgPtr, sigPtr and
      lenPtr, and sign (if it is reached) is given `message` in `memory` and
      answers status, leaving `output` in the signature region and `length`
      in the length cell. */
  function SignLog(msgPtr: nat, sigPtr: nat, lenPtr: nat, sk: nat, message: seq<byte>, memory: seq<byte>,
                   status: int, output: seq<byte>, length: nat): seq<Call>
  {
    [MallocCall(|message|, msgPtr)] + ([MallocCall(MAX_SIGNATURE_SIZE, sigPtr)]
    + ([MallocCall(LENGTH_CELL_SIZE, lenPtr)]
    + SignTail(msgPtr, sigPtr, lenPtr, sk, message, memory, status, output, length)))
  }

  /** The calls signMessage makes after its three allocations: the release of
      whatever was allocated when one of them failed, and otherwise sign
      followed by the three frees of the finally block. */
  function SignTail(msgPtr: nat, sigPtr: nat, lenPtr: nat, sk: nat, message: seq<byte>, memory: seq<byte>,
                    status: int, output: seq<byte>, length: nat): seq<Call>
  {
    if msgPtr == 0 || sigPtr == 0 || lenPtr == 0 then
      ReleaseLog(msgPtr) + (ReleaseLog(sigPtr) + ReleaseLog(lenPtr))
    else
      [SignCall(sigPtr, lenPtr, msgPtr, |message|, sk, message, memory, status, output, length)]
      + ([FreeCall(msgPtr)] + ([FreeCall(sigPtr)] + [FreeCall(lenPtr)]))
  }

  /** What the observers read from the calls after the three allocations. */
  lemma SignTailObserved(msgPtr: nat, sigPtr: nat, lenPtr: nat, sk: nat, message: seq<byte>, memory: seq<byte>,
                         status: int, output: seq<byte>, length: nat)
    ensures Requests(SignTail(msgPtr, sigPtr, lenPtr, sk, message, memory, status, output, length)) == []
    ensures Acquired(SignTail(msgPtr, sigPtr, lenPtr, sk, message, memory, status, output, length)) == []
    ensures Released(SignTail(msgPtr, sigPtr, lenPtr, sk, message, memory, status, output, length))
            == NonNull(msgPtr) + (NonNull(sigPtr) + NonNull(lenPtr))
    ensures Invocations(SignTail(msgPtr, sigPtr, lenPtr, sk, message, memory, status, output, length))
            == if msgPtr != 0 && sigPtr != 0 && lenPtr != 0
               then [SignCall(sigPtr, lenPtr, msgPtr, |message|, sk, message, memory, status, output, length)]
               else []
  {
    if msgPtr == 0 || sigPtr == 0 || lenPtr == 0 {
      ObserveAppend(ReleaseLog(msgPtr), ReleaseLog(sigPtr) + ReleaseLog(lenPtr));
      ObserveAppend(ReleaseLog(sigPtr), ReleaseLog(lenPtr));
    } else {
      ObservePrepend(SignCall(sigPtr, lenPtr, msgPtr, |message|, sk, message, memory, status, output, length),
                     [FreeCall(msgPtr)] + ([FreeCall(sigPtr)] + [FreeCall(lenPtr)]));
      ObservePrepend(FreeCall(msgPtr), [FreeCall(sigPtr)] + [FreeCall(lenPtr)]);
      ObservePrepend(FreeCall(sigPtr), [FreeCall(lenPtr)]);
      ObserveOne(FreeCall(lenPtr));
    }
  }

  /** What the observers read from the whole run: the three allocations, in
      order, followed by the tail. */
  lemma SignHeadObserved(msgPtr: nat, sigPtr: nat, lenPtr: nat, sk: nat, message: seq<byte>, memory: seq<byte>,
                         status: int, output: seq<byte>, length: nat)
    ensures Requests(SignLog(msgPtr, sigPtr, lenPtr, sk, message, memory, status, output, length))
            == [|message|] + ([MAX_SIGNATURE_SIZE] + ([LENGTH_CELL_SIZE]
               + Requests(SignTail(msgPtr, sigPtr, lenPtr, sk, message, memory, status, output, length))))
    ensures Acquired(SignLog(msgPtr, sigPtr, lenPtr, sk, message, memory, status, output, length))
            == NonNull(msgPtr) + (NonNull(sigPtr) + (NonNull(lenPtr)
               + Acquired(SignTail(msgPtr, sigPtr, lenPtr, sk, message, memory, status, output, length))))
    ensures Released(SignLog(msgPtr, sigPtr, lenPtr, sk, message, memory, status, output, length))
            == Released(SignTail(msgPtr, sigPtr, lenPtr, sk, message, memory, status, output, length))
    ensures Invocations(SignLog(msgPtr, sigPtr, lenPtr, sk, message, memory, status, output, length))
            == Invocations(SignTail(msgPtr, sigPtr, lenPtr, sk, message, memory, status, output, length))
  {
    var m2, m3 := MallocCall(MAX_SIGNATURE_SIZE, sigPtr), MallocCall(LENGTH_CELL_SIZE, lenPtr);
    var tail := SignTail(msgPtr, sigPtr, lenPtr, sk, message, memory, status, output, length);
    ObservePrepend(MallocCall(|message|, msgPtr), [m2] + ([m3] + tail));
    ObservePrepend(m2, [m3] + tail);
    ObservePrepend(m3, tail);
  }

  /** Exactly three regions are requested: one as long as the encoded
      message, one of MAX_SIGNATURE_SIZE bytes, and the 4-byte length cell. */
  lemma SignRequests(msgPtr: nat, sigPtr: nat, lenPtr: nat, sk: nat, message: seq<byte>, memory: seq<byte>,
                     status: int, output: seq<byte>, length: nat)
    ensures Requests(SignLog(msgPtr, sigPtr, lenPtr, sk, message, memory, status, output, length))
            == [|message|] + ([MAX_SIGNATURE_SIZE] + [LENGTH_CELL_SIZE])
  {
    SignHeadObserved(msgPtr, sigPtr, lenPtr, sk, message, memory, status, output, length);
    SignTailObserved(msgPtr, sigPtr, lenPtr, sk, message, memory, status, output, length);
  }

  /** sign runs exactly once, on the encoded message, when all three
      allocations succeed, and not at all when any fails. */
  lemma SignInvocations(msgPtr: nat, sigPtr: nat, lenPtr: nat, sk: nat, message: seq<byte>, memory: seq<byte>,
                        status: int, output: seq<byte>, length: nat)
    ensures Invocations(SignLog(msgPtr, sigPtr, lenPtr, sk, message, memory, status, output, length))
            == if msgPtr != 0 && sigPtr != 0 && lenPtr != 0
               then [SignCall(sigPtr, lenPtr, msgPtr, |message|, sk, message, memory, status, output, length)]
               else []
  {
    SignHeadObserved(msgPtr, sigPtr, lenPtr, sk, message, memory, status, output, length);
    SignTailObserved(msgPtr, sigPtr, lenPtr, sk, message, memory, status, output, length);
  }

  /** A binary message reaches sign byte for byte, whatever the text encoder
      is: only text goes through it. */
  lemma SignsBinaryAsGiven(msgPtr: nat, sigPtr: nat, lenPtr: nat, sk: nat, bytes: seq<byte>,
                           encode: string -> seq<byte>, memory: seq<byte>,
                           status: int, output: seq<byte>, length: nat)
    requires msgPtr != 0 && sigPtr != 0 && lenPtr != 0
    ensures Invocations(SignLog(msgPtr, sigPtr, lenPtr, sk, MessageBytes(Binary(bytes), encode),
                                memory, status, output, length))
            == [SignCall(sigPtr, lenPtr, msgPtr, |bytes|, sk, bytes, memory, status, output, length)]
  {
    SignInvocations(msgPtr, sigPtr, lenPtr, sk, MessageBytes(Binary(bytes), encode),
                    memory, status, output, length);
  }

  /** malloc hands out a non-null address for each of the three regions it
      manages to allocate, in allocation order. */
  lemma SignAcquired(msgPtr: nat, sigPtr: nat, lenPtr: nat, sk: nat, message: seq<byte>, memory: seq<byte>,
                     status: int, output: seq<byte>, length: nat)
    ensures Acquired(SignLog(msgPtr, sigPtr, lenPtr, sk, message, memory, status, output, length))
            == NonNull(msgPtr) + (NonNull(sigPtr) + NonNull(lenPtr))
  {
    SignHeadObserved(msgPtr, sigPtr, lenPtr, sk, message, memory, status, output, length);
    SignTailObserved(msgPtr, sigPtr, lenPtr, sk, message, memory, status, output, length);
  }

  /** Every region malloc handed out is freed exactly once, in allocation
      order, whatever the outcome, and nothing else is freed. */
  lemma SignReleased(msgPtr: nat, sigPtr: nat, lenPtr: nat, sk: nat, message: seq<byte>, memory: seq<byte>,
                     status: int, output: seq<byte>, length: nat)
    ensures Released(SignLog(msgPtr, sigPtr, lenPtr, sk, message, memory, status, output, length))
            == NonNull(msgPtr) + (NonNull(sigPtr) + NonNull(lenPtr))
  {
    SignHeadObserved(msgPtr, sigPtr, lenPtr, sk, message, memory, status, output, length);
    SignTailObserved(msgPtr, sigPtr, lenPtr, sk, message, memory, status, output, length);
  }

  /** Only the three scratch regions are freed: a secret-key handle that is
      none of them is never freed. */
  lemma SignSparesKey(msgPtr: nat, sigPtr: nat, lenPtr: nat, sk: nat, message: seq<byte>, memory: seq<byte>,
                      status: int, output: seq<byte>, length: nat)
    requires sk != msgPtr && sk != sigPtr && sk != lenPtr
    ensures sk !in Released(SignLog(msgPtr, sigPtr, lenPtr, sk, message, memory, status, output, length))
  {
    SignReleased(msgPtr, sigPtr, lenPtr, sk, message, memory, status, output, length);
    assert sk !in NonNull(msgPtr) && sk !in NonNull(sigPtr) && sk !in NonNull(lenPtr);
  }

  /** The log of a run in which an allocation failed, call by call. */
  lemma SignLogReleased(log0: seq<Call>, msgPtr: nat, sigPtr: nat, lenPtr: nat, sk: nat,
                        message: seq<byte>, memory: seq<byte>, status: int, output: seq<byte>, length: nat)
    requires msgPtr == 0 || sigPtr == 0 || lenPtr == 0
    ensures log0 + [MallocCall(|message|, msgPtr)] + [MallocCall(MAX_SIGNATURE_SIZE, sigPtr)]
            + [MallocCall(LENGTH_CELL_SIZE, lenPtr)]
            + ReleaseLog(msgPtr) + ReleaseLog(sigPtr) + ReleaseLog(lenPtr)
            == log0 + SignLog(msgPtr, sigPtr, lenPtr, sk, message, memory, status, output, length)
  {
    var m, s, l := ReleaseLog(msgPtr), ReleaseLog(sigPtr), ReleaseLog(lenPtr);
    assert log0 + [MallocCall(|message|, msgPtr)] + [MallocCall(MAX_SIGNATURE_SIZE, sigPtr)]
               + [MallocCall(LENGTH_CELL_SIZE, lenPtr)] + m + s + l
           == log0 + ([MallocCall(|message|, msgPtr)] + ([MallocCall(MAX_SIGNATURE_SIZE, sigPtr)]
              + ([MallocCall(LENGTH_CELL_SIZE, lenPtr)] + (m + (s + l)))));
  }

  /** The log of a run that reached sign, call by call. */
  lemma SignLogSigned(log0: seq<Call>, msgPtr: nat, sigPtr: nat, lenPtr: nat, sk: nat,
                      message: seq<byte>, memory: seq<byte>, status: int, output: seq<byte>, length: nat)
    requires msgPtr != 0 && sigPtr != 0 && lenPtr != 0
    ensures log0 + [MallocCall(|message|, msgPtr)] + [MallocCall(MAX_SIGNATURE_SIZE, sigPtr)]
            + [MallocCall(LENGTH_CELL_SIZE, lenPtr)]
            + [SignCall(sigPtr, lenPtr, msgPtr, |message|, sk, message, memory, status, output, length)]
            + [FreeCall(msgPtr)] + [FreeCall(sigPtr)] + [FreeCall(lenPtr)]
            == log0 + SignLog(msgPtr, sigPtr, lenPtr, sk, message, memory, status, output, length)
  {
  }

  /** What the copy-in means for the secret key: when the message region
      overlaps no region live before the call (as SignMessage ensures), the
      bytes of a live key handle reach sign exactly as they were. */
  lemma KeyReachesSign(mem: seq<byte>, live: map<nat, nat>, msgPtr: nat, message: seq<byte>, key: nat)
    requires msgPtr + |message| <= |mem|
    requires key in live && key + live[key] <= |mem|
    requires forall q :: q in live ==> Disjoint(msgPtr, |message|, q, live[q])
    ensures Overwrite(mem, msgPtr, message)[key .. key + live[key]] == mem[key .. key + live[key]]
  {
    OverwriteElsewhere(mem, msgPtr, message, key, live[key]);
  }

  /** The try block of signMessage: copies the message into its region, runs
      sign, reads the signature length through HEAPU32 and copies that many
      bytes out of the signature region. The ghost results are the memory
      sign was given, what it returned, and what it left in the signature
      region and in the length cell. */
  method SignInScratch(api: Api, msgPtr: nat, sigPtr: nat, lenPtr: nat, message: seq<byte>, sk: nat)
    returns (r: Result<seq<byte>>, ghost seen: seq<byte>, ghost status: int, ghost output: seq<byte>,
             ghost length: nat)
    requires api.Valid()
    requires msgPtr in api.live && api.live[msgPtr] == |message|
    requires sigPtr in api.live && api.live[sigPtr] == MAX_SIGNATURE_SIZE
    requires lenPtr in api.live && api.live[lenPtr] == LENGTH_CELL_SIZE && lenPtr % 4 == 0
    modifies api`log, api.heap
    ensures api.Valid()
    ensures msgPtr + |message| <= api.heap.Length && seen == Overwrite(old(api.heap[..]), msgPtr, message)
    ensures api.log == old(api.log) + [SignCall(sigPtr, lenPtr, msgPtr, |message|, sk, message, seen,
                                                status, output, length)]
    ensures r.Err? <==> status != 0
    ensures r.Err? ==> r.error == SigningError(status)
    ensures r.Ok? ==> |output| == MAX_SIGNATURE_SIZE && length <= MAX_SIGNATURE_SIZE
    ensures r.Ok? ==> r.value == output[..length]
  {
    api.SetBytes(message, msgPtr);
    seen := api.heap[..];
    assert api.heap[msgPtr .. msgPtr + |message|] == message;

    var result := api.Sign(sigPtr, lenPtr, msgPtr, |message|, sk);
    status, output := result, api.heap[sigPtr .. sigPtr + MAX_SIGNATURE_SIZE];
    length := DecodeU32(api.heap[..], lenPtr);

    if result != 0 {
      r := Err(SigningError(result));
    } else {
      AlignedWordAt(api.heap[..], lenPtr);
      var signatureLength := WordAt(api.heap[..], ShiftRight2(lenPtr));
      r := Ok(api.heap[sigPtr .. sigPtr + signatureLength]);
    }
  }

  /** The finally block of signMessage: frees the message region, the
      signature region and the length cell, in that order. */
  method FreeScratch(api: Api, msgPtr: nat, sigPtr: nat, lenPtr: nat)
    requires api.Valid()
    requires msgPtr in api.live && sigPtr in api.live && lenPtr in api.live
    requires msgPtr != sigPtr && msgPtr != lenPtr && sigPtr != lenPtr
    modifies api
    ensures api.Valid() && api.heap == old(api.heap)
    ensures api.live == old(api.live) - {msgPtr} - {sigPtr} - {lenPtr}
    ensures api.log == old(api.log) + [FreeCall(msgPtr)] + [FreeCall(sigPtr)] + [FreeCall(lenPtr)]
  {
    api.Free(msgPtr);
    api.Free(sigPtr);
    api.Free(lenPtr);
  }

  /** The marshaler. `encode` is the text encoder used for text messages.
      Besides the result it yields, as ghost values, what malloc returned for
      the message region, the signature region and the length cell, the
      memory sign was given, and what sign returned and left in the
      signature region and in the length cell ([], 0, [] and 0 when sign is
      not reached). */
  method SignMessage(api: Api, message: Message, secretKeyPtr: nat, encode: string -> seq<byte>)
    returns (r: Result<seq<byte>>, ghost msgPtr: nat, ghost sigPtr: nat, ghost lenPtr: nat,
             ghost seen: seq<byte>, ghost status: int, ghost output: seq<byte>, ghost length: nat)
    requires api.Valid()
    modifies api, api.heap
    ensures api.Valid() && api.heap == old(api.heap)
    ensures api.log == old(api.log) + SignLog(msgPtr, sigPtr, lenPtr, secretKeyPtr,
                                              MessageBytes(message, encode), seen, status, output, length)
    ensures r.Ok? <==> msgPtr != 0 && sigPtr != 0 && lenPtr != 0 && status == 0
    ensures r == Err(AllocationError) <==> msgPtr == 0 || sigPtr == 0 || lenPtr == 0
    ensures r == Err(SigningError(status)) <==> msgPtr != 0 && sigPtr != 0 && lenPtr != 0 && status != 0
    ensures r.Ok? ==> |output| == MAX_SIGNATURE_SIZE && length <= MAX_SIGNATURE_SIZE
    ensures r.Ok? ==> r.value == output[..length]
    ensures api.live == old(api.live)
    ensures msgPtr !in old(api.live) && sigPtr !in old(api.live) && lenPtr !in old(api.live)
    ensures msgPtr != 0 && sigPtr != 0 && lenPtr != 0 ==>
              msgPtr + |MessageBytes(message, encode)| <= api.heap.Length &&
              seen == Overwrite(old(api.heap[..]), msgPtr, MessageBytes(message, encode))
    ensures msgPtr != 0 ==> forall q :: q in old(api.live) ==>
              Disjoint(msgPtr, |MessageBytes(message, encode)|, q, old(api.live)[q])
    ensures r == Err(AllocationError) ==> api.heap[..] == old(api.heap[..])
  {
    ghost var live0, log0 := api.live, api.log;
    var messageBytes := MessageBytes(message, encode);
    var messageLength := |messageBytes|;

    var messagePtr := api.Malloc(messageLength);
    var signaturePtr := api.Malloc(MAX_SIGNATURE_SIZE);
    var signatureLengthPtr := api.Malloc(LENGTH_CELL_SIZE);
    msgPtr, sigPtr, lenPtr, seen, status, output, length :=
      messagePtr, signaturePtr, signatureLengthPtr, [], 0, [], 0;

    if messagePtr == 0 || signaturePtr == 0 || signatureLengthPtr == 0 {
      ReleaseIfAllocated(api, messagePtr);
      ReleaseIfAllocated(api, signaturePtr);
      ReleaseIfAllocated(api, signatureLengthPtr);
      UndoThree(live0, msgPtr, messageLength, sigPtr, MAX_SIGNATURE_SIZE, lenPtr, LENGTH_CELL_SIZE);
      SignLogReleased(log0, msgPtr, sigPtr, lenPtr, secretKeyPtr, messageBytes, seen, status, output, length);
      return Err(AllocationError), msgPtr, sigPtr, lenPtr, seen, status, output, length;
    }

    // try
    r, seen, status, output, length := SignInScratch(api, messagePtr, signaturePtr, signatureLengthPtr,
                                                     messageBytes, secretKeyPtr);

    // finally
    FreeScratch(api, messagePtr, signaturePtr, signatureLengthPtr);
    UndoThree(live0, msgPtr, messageLength, sigPtr, MAX_SIGNATURE_SIZE, lenPtr, LENGTH_CELL_SIZE);
    SignLogSigned(log0, msgPtr, sigPtr, lenPtr, secretKeyPtr, messageBytes, seen, status, output, length);
  }
}
