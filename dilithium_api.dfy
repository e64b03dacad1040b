/** The compiled Dilithium2 WebAssembly module as the marshalers see it: an
    allocator (`_malloc`, `_free`), the byte view HEAPU8 of its linear memory,
    and the three engine entry points `keypair`, `sign` and `verify`.

    The allocator and the engine are foreign code. Their contracts below are
    all the marshalers may rely on. Their bodies are minimal stand-ins
    (a bump allocator that never reuses memory, and engine stubs) that only
    show the contracts can be met. They do not model the real allocator or
    the signature algorithm. */
module DilithiumApi {
  import opened Memory
  import opened Dilithium2

  /** One call on the module, as recorded in the ghost call log. The entries
      for the engine record what it was given: the whole of memory as it was
      when it was called (`memory`), and the message and signature bytes it
      read from it. A `sign` entry also records what it left behind: the
      bytes of the whole signature region, and the 32-bit word in the length
      cell. */
  datatype Call =
    | MallocCall(size: nat, addr: nat)
    | FreeCall(addr: nat)
    | KeypairCall(pk: nat, sk: nat, memory: seq<byte>, status: int)
    | SignCall(sig: nat, sigLenPtr: nat, msg: nat, msgLen: nat, sk: nat,
               message: seq<byte>, memory: seq<byte>, status: int, output: seq<byte>, length: nat)
    | VerifyCall(sig: nat, sigLen: nat, msg: nat, msgLen: nat, pk: nat,
                 signature: seq<byte>, message: seq<byte>, memory: seq<byte>, status: int)

  /** The sizes requested from malloc, in call order. */
  function Requests(log: seq<Call>): seq<nat>
  {
    if log == [] then []
    else (if log[0].MallocCall? then [log[0].size] else []) + Requests(log[1..])
  }

  /** The non-null addresses malloc handed out, in call order. */
  function Acquired(log: seq<Call>): seq<nat>
  {
    if log == [] then []
    else (if log[0].MallocCall? && log[0].addr != 0 then [log[0].addr] else []) + Acquired(log[1..])
  }

  /** The addresses passed to free, in call order. */
  function Released(log: seq<Call>): seq<nat>
  {
    if log == [] then []
    else (if log[0].FreeCall? then [log[0].addr] else []) + Released(log[1..])
  }

  /** The calls into the signature engine, in call order. */
  function Invocations(log: seq<Call>): seq<Call>
  {
    if log == [] then []
    else (if log[0].MallocCall? || log[0].FreeCall? then [] else [log[0]]) + Invocations(log[1..])
  }

  /** The regions a pointer returned by malloc names, as a list: none for
      null, one otherwise. */
  function NonNull(p: nat): seq<nat>
  {
    if p != 0 then [p] else []
  }

  /** What each observer reads from a single call. */
  lemma ObserveOne(c: Call)
    ensures Requests([c]) == if c.MallocCall? then [c.size] else []
    ensures Acquired([c]) == if c.MallocCall? then NonNull(c.addr) else []
    ensures Released([c]) == if c.FreeCall? then [c.addr] else []
    ensures Invocations([c]) == if c.MallocCall? || c.FreeCall? then [] else [c]
  {
    assert [c][1..] == [];
  }

  /** Each observer of the log reads a concatenation piece by piece. */
  lemma {:induction false} RequestsAppend(a: seq<Call>, b: seq<Call>)
    ensures Requests(a + b) == Requests(a) + Requests(b)
  {
    if a == [] {
      assert a + b == b;
    } else {
      assert (a + b)[0] == a[0] && (a + b)[1..] == a[1..] + b;
      RequestsAppend(a[1..], b);
    }
  }

  lemma {:induction false} AcquiredAppend(a: seq<Call>, b: seq<Call>)
    ensures Acquired(a + b) == Acquired(a) + Acquired(b)
  {
    if a == [] {
      assert a + b == b;
    } else {
      assert (a + b)[0] == a[0] && (a + b)[1..] == a[1..] + b;
      AcquiredAppend(a[1..], b);
    }
  }

  lemma {:induction false} ReleasedAppend(a: seq<Call>, b: seq<Call>)
    ensures Released(a + b) == Released(a) + Released(b)
  {
    if a == [] {
      assert a + b == b;
    } else {
      assert (a + b)[0] == a[0] && (a + b)[1..] == a[1..] + b;
      ReleasedAppend(a[1..], b);
    }
  }

  lemma {:induction false} InvocationsAppend(a: seq<Call>, b: seq<Call>)
    ensures Invocations(a + b) == Invocations(a) + Invocations(b)
  {
    if a == [] {
      assert a + b == b;
    } else {
      assert (a + b)[0] == a[0] && (a + b)[1..] == a[1..] + b;
      InvocationsAppend(a[1..], b);
    }
  }

  /** All four observers read a concatenation piece by piece. */
  lemma ObserveAppend(a: seq<Call>, b: seq<Call>)
    ensures Requests(a + b) == Requests(a) + Requests(b)
    ensures Acquired(a + b) == Acquired(a) + Acquired(b)
    ensures Released(a + b) == Released(a) + Released(b)
    ensures Invocations(a + b) == Invocations(a) + Invocations(b)
  {
    RequestsAppend(a, b);
    AcquiredAppend(a, b);
    ReleasedAppend(a, b);
    InvocationsAppend(a, b);
  }

  /** What all four observers read from a call followed by more calls. */
  lemma ObservePrepend(c: Call, rest: seq<Call>)
    ensures Requests([c] + rest) == (if c.MallocCall? then [c.size] else []) + Requests(rest)
    ensures Acquired([c] + rest) == (if c.MallocCall? then NonNull(c.addr) else []) + Acquired(rest)
    ensures Released([c] + rest) == (if c.FreeCall? then [c.addr] else []) + Released(rest)
    ensures Invocations([c] + rest) == (if c.MallocCall? || c.FreeCall? then [] else [c]) + Invocations(rest)
  {
    ObserveOne(c);
    ObserveAppend([c], rest);
  }

  /** The live map after malloc answered p for a region of `size` bytes. */
  function Grow(live: map<nat, nat>, p: nat, size: nat): map<nat, nat>
  {
    if p == 0 then live else live[p := size]
  }

  /** The live map after `if (p) free(p)`. */
  function Shrink(live: map<nat, nat>, p: nat): map<nat, nat>
  {
    if p == 0 then live else live - {p}
  }

  /** Releasing an address that malloc just handed out gives back the live map. */
  lemma ShrinkGrow(live: map<nat, nat>, p: nat, size: nat)
    requires p !in live
    ensures Shrink(Grow(live, p, size), p) == live
  {
    if p != 0 {
      assert live[p := size] - {p} == live;
    }
  }

  /** Releasing one address commutes with handing out another. */
  lemma ShrinkGrowSwap(live: map<nat, nat>, p: nat, size: nat, q: nat)
    requires p == 0 || q == 0 || p != q
    ensures Shrink(Grow(live, p, size), q) == Grow(Shrink(live, q), p, size)
  {
    if p != 0 && q != 0 {
      assert live[p := size] - {q} == (live - {q})[p := size];
    }
  }

  /** Freeing both non-null addresses of two successive allocations, in
      allocation order, restores the live map. */
  lemma UndoTwo(live: map<nat, nat>, p: nat, m: nat, q: nat, n: nat)
    requires p !in live && q !in Grow(live, p, m)
    ensures Shrink(Shrink(Grow(Grow(live, p, m), q, n), p), q) == live
  {
    ShrinkGrowSwap(Grow(live, p, m), q, n, p);
    ShrinkGrow(live, p, m);
    ShrinkGrow(live, q, n);
  }

  /** Freeing the non-null addresses of three successive allocations, in
      allocation order, restores the live map. */
  lemma UndoThree(live: map<nat, nat>, p: nat, m: nat, q: nat, n: nat, r: nat, k: nat)
    requires p !in live && q !in Grow(live, p, m) && r !in Grow(Grow(live, p, m), q, n)
    ensures Shrink(Shrink(Shrink(Grow(Grow(Grow(live, p, m), q, n), r, k), p), q), r) == live
  {
    var l1 := Grow(live, p, m);
    var l2 := Grow(l1, q, n);
    ShrinkGrowSwap(l2, r, k, p);
    ShrinkGrowSwap(l1, q, n, p);
    ShrinkGrow(live, p, m);
    assert Shrink(Grow(l2, r, k), p) == Grow(Grow(live, q, n), r, k);
    assert r !in Grow(live, q, n);
    UndoTwo(live, q, n, r, k);
  }

  /** What `if (p) api._free(p)` adds to the log. */
  function ReleaseLog(p: nat): (calls: seq<Call>)
    ensures Released(calls) == NonNull(p)
    ensures Requests(calls) == [] && Acquired(calls) == [] && Invocations(calls) == []
  {
    if p != 0 then [FreeCall(p)] else []
  }

  /** `if (p) api._free(p)`: frees p when malloc did not return null for it. */
  method ReleaseIfAllocated(api: Api, p: nat)
    requires api.Valid() && (p != 0 ==> p in api.live)
    modifies api
    ensures api.Valid() && api.heap == old(api.heap)
    ensures api.live == Shrink(old(api.live), p)
    ensures api.log == old(api.log) + ReleaseLog(p)
  {
    if p != 0 {
      api.Free(p);
    }
  }

  class Api {
    /** HEAPU8: the module's linear memory. */
    var heap: array<byte>
    /** The live allocations: address returned by malloc to the size asked for. */
    ghost var live: map<nat, nat>
    /** Every call made on the module so far, oldest first. */
    ghost var log: seq<Call>
    /** State of the stand-in allocator: no byte at or above it is handed out yet. */
    var brk: nat

    /** Live regions lie inside memory, never at address 0, and never overlap.
        Memory is at most 2^31 bytes, the default maximum of an Emscripten
        build. `brk` belongs to the stand-in allocator: every live region lies
        below it, and it lies inside memory. */
    ghost predicate Valid()
      reads this
    {
      heap.Length <= TWO_31 &&
      0 !in live &&
      0 < brk <= heap.Length && brk % 4 == 0 &&
      (forall p :: p in live ==> p < brk && p + live[p] <= brk) &&
      (forall p, q {:trigger Disjoint(p, live[p], q, live[q])} ::
         p in live && q in live && p != q ==> Disjoint(p, live[p], q, live[q]))
    }

    /** A freshly instantiated module: `size` bytes of memory, nothing allocated. */
    constructor (size: nat)
      requires 8 <= size <= TWO_31
      ensures Valid() && fresh(heap) && heap.Length == size
      ensures live == map[] && log == []
    {
      heap := new byte[size];
      live := map[];
      log := [];
      brk := 8;
    }

    /** `_malloc(size)`: either 0, or a fresh 4-aligned address whose region
        lies inside memory and overlaps no live region. A new region's bytes
        are whatever memory held there. */
    method Malloc(size: nat) returns (p: nat)
      requires Valid()
      modifies this
      ensures Valid() && heap == old(heap)
      ensures live == Grow(old(live), p, size)
      ensures p != 0 ==> p !in old(live) && p % 4 == 0 && p + size <= heap.Length
      ensures p != 0 ==> forall q :: q in old(live) ==> Disjoint(p, size, q, old(live)[q])
      ensures log == old(log) + [MallocCall(size, p)]
    {
      var end := brk + if size == 0 then 1 else size;
      var next := end + (4 - end % 4) % 4;
      if next <= heap.Length {
        p := brk;
        live := live[p := size];
        brk := next;
      } else {
        p := 0;
      }
      log := log + [MallocCall(size, p)];
    }

    /** `_free(p)` of a live address: the region stops being live. */
    method Free(p: nat)
      requires Valid() && p in live
      modifies this
      ensures Valid() && heap == old(heap)
      ensures live == old(live) - {p}
      ensures log == old(log) + [FreeCall(p)]
    {
      live := live - {p};
      log := log + [FreeCall(p)];
    }

    /** `HEAPU8.set(bytes, at)`: copies bytes into memory starting at `at` and
        leaves every other byte alone. */
    method SetBytes(bytes: seq<byte>, at: nat)
      requires at + |bytes| <= heap.Length
      modifies heap
      ensures heap[..] == Overwrite(old(heap[..]), at, bytes)
    {
      forall i | 0 <= i < |bytes| {
        heap[at + i] := bytes[i];
      }
      assert heap[..] == Overwrite(old(heap[..]), at, bytes) by {
        var o := Overwrite(old(heap[..]), at, bytes);
        forall i | 0 <= i < heap.Length ensures heap[i] == o[i] {
          if at <= i < at + |bytes| {
            assert o[i] == o[at .. at + |bytes|][i - at];
          }
        }
      }
    }

    /** `keypair(pk, sk)`: fills the two key regions. It may write memory but
        never allocates or frees. */
    method Keypair(pk: nat, sk: nat) returns (status: int)
      requires Valid()
      requires pk in live && live[pk] >= PUBLIC_KEY_SIZE
      requires sk in live && live[sk] >= SECRET_KEY_SIZE
      modifies this`log, heap
      ensures Valid()
      ensures log == old(log) + [KeypairCall(pk, sk, old(heap[..]), status)]
    {
      status := 0;
      log := log + [KeypairCall(pk, sk, heap[..], status)];
    }

    /** `sign(sig, sigLenPtr, msg, msgLen, sk)`: signs the msgLen bytes at msg,
        writing the signature at sig and its length, as a little-endian 32-bit
        word, at sigLenPtr. On status 0 that length is at most
        MAX_SIGNATURE_SIZE: the marshaler trusts this and never checks it.
        It may write memory but never allocates or frees. */
    method Sign(sig: nat, sigLenPtr: nat, msg: nat, msgLen: nat, sk: nat) returns (status: int)
      requires Valid()
      requires sig in live && live[sig] >= MAX_SIGNATURE_SIZE
      requires sigLenPtr in live && live[sigLenPtr] >= LENGTH_CELL_SIZE
      requires msg in live && live[msg] >= msgLen
      modifies this`log, heap
      ensures Valid()
      ensures status == 0 ==> DecodeU32(heap[..], sigLenPtr) <= MAX_SIGNATURE_SIZE
      ensures log == old(log) + [SignCall(sig, sigLenPtr, msg, msgLen, sk,
                                          old(heap[msg .. msg + msgLen]), old(heap[..]), status,
                                          heap[sig .. sig + MAX_SIGNATURE_SIZE],
                                          DecodeU32(heap[..], sigLenPtr))]
    {
      ghost var message, memory := heap[msg .. msg + msgLen], heap[..];
      SetBytes(EncodeU32(MAX_SIGNATURE_SIZE), sigLenPtr);
      DecodeU32Local(heap[..], sigLenPtr, EncodeU32(MAX_SIGNATURE_SIZE));
      DecodeEncodeU32(MAX_SIGNATURE_SIZE);
      status := 0;
      log := log + [SignCall(sig, sigLenPtr, msg, msgLen, sk, message, memory, status,
                             heap[sig .. sig + MAX_SIGNATURE_SIZE],
                             DecodeU32(heap[..], sigLenPtr))];
    }

    /** `verify(sig, sigLen, msg, msgLen, pk)`: checks a signature and returns
        0 when it is valid. It may write memory but never allocates or frees. */
    method Verify(sig: nat, sigLen: nat, msg: nat, msgLen: nat, pk: nat) returns (status: int)
      requires Valid()
      requires sig in live && live[sig] >= sigLen
      requires msg in live && live[msg] >= msgLen
      modifies this`log, heap
      ensures Valid()
      ensures log == old(log) + [VerifyCall(sig, sigLen, msg, msgLen, pk,
                                            old(heap[sig .. sig + sigLen]),
                                            old(heap[msg .. msg + msgLen]), old(heap[..]), status)]
    {
      status := 0;
      log := log + [VerifyCall(sig, sigLen, msg, msgLen, pk,
                               heap[sig .. sig + sigLen], heap[msg .. msg + msgLen], heap[..], status)];
    }
  }
}
