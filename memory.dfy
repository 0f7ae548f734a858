/** The simulated byte memory and its 4-byte little-endian word accesses (the
    `*(unsigned int*)` reads and writes of the executor). */
module ByteMemory {
  import opened Words

  /** Byte address to byte. The 1024 bytes the simulator allocates are present from the
      start; a word written anywhere else adds its bytes. */
  type Memory = map<int, u8>

  predicate Mapped(m: Memory, a: int)
  {
    a in m && a + 1 in m && a + 2 in m && a + 3 in m
  }

  /** The word whose least significant byte is at `a`, or None when one of its bytes
      was never allocated nor written. */
  function LoadWord(m: Memory, a: int): (r: Option<u32>)
    ensures r.Some? <==> Mapped(m, a)
  {
    if Mapped(m, a) then
      var b0, b1, b2, b3: int := m[a], m[a + 1], m[a + 2], m[a + 3];
      Some(b0 + 0x100 * (b1 + 0x100 * (b2 + 0x100 * b3)))
    else
      None
  }

  /** Byte k of `v`, counting from the least significant. */
  function ByteOf(v: nat, k: nat): u8
  {
    if k == 0 then v % 0x100 else ByteOf(v / 0x100, k - 1)
  }

  /** The four bytes of a word put back together. */
  lemma ByteOfWord(v: u32)
    ensures v == ByteOf(v, 0) + 0x100 * (ByteOf(v, 1) + 0x100 * (ByteOf(v, 2) + 0x100 * ByteOf(v, 3)))
  {
    var q1 := v / 0x100;
    var q2 := q1 / 0x100;
    var q3 := q2 / 0x100;
    assert ByteOf(v, 1) == q1 % 0x100;
    assert ByteOf(v, 2) == q2 % 0x100;
    assert ByteOf(v, 3) == q3 % 0x100;
  }

  /** Writes `bs` at consecutive addresses from `a` on. */
  function WriteBytes(m: Memory, a: int, bs: seq<u8>): Memory
    decreases |bs|
  {
    if bs == [] then m else WriteBytes(m[a := bs[0]], a + 1, bs[1..])
  }

  /** Writing bytes leaves every address outside the written range as it was. */
  lemma {:induction false} WriteBytesOutside(m: Memory, a: int, bs: seq<u8>)
    ensures forall x :: x < a || a + |bs| <= x ==>
      (x in WriteBytes(m, a, bs) <==> x in m) && (x in m ==> WriteBytes(m, a, bs)[x] == m[x])
    decreases |bs|
  {
    if bs != [] {
      WriteBytesOutside(m[a := bs[0]], a + 1, bs[1..]);
    }
  }

  /** The i-th written address holds the i-th byte. */
  lemma {:induction false} WriteBytesInside(m: Memory, a: int, bs: seq<u8>, i: nat)
    requires i < |bs|
    ensures a + i in WriteBytes(m, a, bs) && WriteBytes(m, a, bs)[a + i] == bs[i]
    decreases |bs|
  {
    var n := m[a := bs[0]];
    if i == 0 {
      WriteBytesOutside(n, a + 1, bs[1..]);
    } else {
      WriteBytesInside(n, a + 1, bs[1..], i - 1);
    }
  }

  /** Writes the four bytes of `v`, least significant first. */
  function StoreWord(m: Memory, a: int, v: u32): (m': Memory)
    ensures forall x :: x < a || a + 4 <= x ==> (x in m' <==> x in m) && (x in m ==> m'[x] == m[x])
    ensures LoadWord(m', a) == Some(v)
  {
    var bs := [ByteOf(v, 0), ByteOf(v, 1), ByteOf(v, 2), ByteOf(v, 3)];
    WriteBytesOutside(m, a, bs);
    WriteBytesInside(m, a, bs, 0);
    WriteBytesInside(m, a, bs, 1);
    WriteBytesInside(m, a, bs, 2);
    WriteBytesInside(m, a, bs, 3);
    ByteOfWord(v);
    var m' := WriteBytes(m, a, bs);
    assert bs[0] == ByteOf(v, 0) && bs[1] == ByteOf(v, 1) && bs[2] == ByteOf(v, 2) && bs[3] == ByteOf(v, 3);
    assert m'[a + 0] == bs[0] && m'[a + 1] == bs[1] && m'[a + 2] == bs[2] && m'[a + 3] == bs[3];
    m'
  }

  /** A word load sees only its own four bytes. */
  lemma LoadSameBytes(m: Memory, n: Memory, a: int)
    requires forall x :: a <= x < a + 4 ==> (x in m <==> x in n)
    requires forall x :: a <= x < a + 4 && x in m ==> m[x] == n[x]
    ensures LoadWord(m, a) == LoadWord(n, a)
  {
  }

  /** Storing a word leaves every word that does not overlap it as it was. */
  lemma LoadAfterDisjointStore(m: Memory, a: int, v: u32, b: int)
    requires b + 4 <= a || a + 4 <= b
    ensures LoadWord(StoreWord(m, a, v), b) == LoadWord(m, b)
  {
    LoadSameBytes(StoreWord(m, a, v), m, b);
  }
}
