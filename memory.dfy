/** The linear memory of a WebAssembly module as the JavaScript side sees it:
    a byte view (HEAPU8), a little-endian 32-bit word view (HEAPU32) over the
    same bytes, and JavaScript's signed 32-bit shift used to index the latter. */
module Memory {

  /** One element of a Uint8Array. */
  newtype byte = b: int | 0 <= b < 256

  const TWO_31: int := 0x8000_0000
  const TWO_32: int := 0x1_0000_0000

  /** ToInt32 of ECMAScript: the integer congruent to x modulo 2^32 in [-2^31, 2^31). */
  function ToInt32(x: int): (r: int)
    ensures -TWO_31 <= r < TWO_31
    ensures (x - r) % TWO_32 == 0
  {
    (x + TWO_31) % TWO_32 - TWO_31
  }

  /** The JavaScript expression `p >> 2`: ToInt32 followed by an arithmetic shift,
      which is floor division by 4 (Dafny's `/` floors for a positive divisor). */
  function ShiftRight2(p: int): (r: int)
    ensures 0 <= p < TWO_31 ==> r == p / 4
    ensures TWO_31 <= p < TWO_32 ==> r < 0
  {
    ToInt32(p) / 4
  }

  /** The unsigned 32-bit little-endian word stored in mem[at .. at + 4]. */
  function DecodeU32(mem: seq<byte>, at: nat): (w: nat)
    requires at + 4 <= |mem|
    ensures w < TWO_32
  {
    mem[at] as nat + 0x100 * mem[at + 1] as nat
    + 0x1_0000 * mem[at + 2] as nat + 0x100_0000 * mem[at + 3] as nat
  }

  /** The four bytes a little-endian store of the 32-bit word w writes. */
  function EncodeU32(w: nat): (bs: seq<byte>)
    requires w < TWO_32
    ensures |bs| == 4
  {
    [(w % 0x100) as byte, (w / 0x100 % 0x100) as byte,
     (w / 0x1_0000 % 0x100) as byte, (w / 0x100_0000) as byte]
  }

  /** Reading back a stored 32-bit word gives the word. */
  lemma {:induction false} DecodeEncodeU32(w: nat)
    requires w < TWO_32
    ensures DecodeU32(EncodeU32(w), 0) == w
  {
    var q0 := w / 0x100;
    var q1 := q0 / 0x100;
    assert w == w % 0x100 + 0x100 * q0;
    assert q0 == q0 % 0x100 + 0x100 * q1;
    assert q1 == q1 % 0x100 + 0x100 * (q1 / 0x100);
    assert w / 0x1_0000 == q1;
    assert w / 0x100_0000 == q1 / 0x100;
  }

  /** A 32-bit word depends only on its own four bytes. */
  lemma DecodeU32Local(mem: seq<byte>, at: nat, bs: seq<byte>)
    requires at + 4 <= |mem| && |bs| == 4
    requires mem[at .. at + 4] == bs
    ensures DecodeU32(mem, at) == DecodeU32(bs, 0)
  {
    assert mem[at] == bs[0] && mem[at + 1] == bs[1];
    assert mem[at + 2] == bs[2] && mem[at + 3] == bs[3];
  }

  /** The typed-array view HEAPU32 at index k: the word formed by bytes 4k .. 4k + 3. */
  function WordAt(mem: seq<byte>, k: int): (w: nat)
    requires 0 <= k && 4 * k + 4 <= |mem|
    ensures w < TWO_32
  {
    DecodeU32(mem, 4 * k)
  }

  /** Indexing HEAPU32 with `p >> 2` reads the word stored at byte address p
      when p is 4-aligned and below 2^31. */
  lemma AlignedWordAt(mem: seq<byte>, p: nat)
    requires p % 4 == 0 && p < TWO_31 && p + 4 <= |mem|
    ensures 0 <= ShiftRight2(p) && 4 * ShiftRight2(p) + 4 <= |mem|
    ensures WordAt(mem, ShiftRight2(p)) == DecodeU32(mem, p)
  {
    assert ShiftRight2(p) == p / 4;
    assert 4 * (p / 4) == p;
  }

  /** The memory after `HEAPU8.set(bytes, at)`. */
  function Overwrite(mem: seq<byte>, at: nat, bytes: seq<byte>): (r: seq<byte>)
    requires at + |bytes| <= |mem|
    ensures |r| == |mem|
    ensures r[at .. at + |bytes|] == bytes
    ensures forall i :: 0 <= i < |mem| && !(at <= i < at + |bytes|) ==> r[i] == mem[i]
  {
    mem[..at] + bytes + mem[at + |bytes|..]
  }

  /** A copy leaves every range it does not overlap as it was. */
  lemma OverwriteElsewhere(mem: seq<byte>, at: nat, bytes: seq<byte>, p: nat, n: nat)
    requires at + |bytes| <= |mem| && p + n <= |mem|
    requires Disjoint(at, |bytes|, p, n)
    ensures Overwrite(mem, at, bytes)[p .. p + n] == mem[p .. p + n]
  {
    var r := Overwrite(mem, at, bytes);
    forall i | p <= i < p + n
      ensures r[i] == mem[i]
    {
    }
  }

  /** The half-open ranges [p, p + n) and [q, q + m) share no byte. */
  predicate Disjoint(p: nat, n: nat, q: nat, m: nat)
  {
    p + n <= q || q + m <= p
  }
}
