// The machine's byte-addressed memory and its 32-bit little-endian words.
module Memory {
  type byte = x: int | 0 <= x < 0x100
  type word = x: int | 0 <= x < 0x1_0000_0000

  const NULL: nat := 0

  function Load(m: seq<byte>, a: nat): word
    requires a + 4 <= |m|
  {
    var b0: int, b1: int, b2: int, b3: int := m[a], m[a + 1], m[a + 2], m[a + 3];
    b0 + 0x100 * b1 + 0x1_0000 * b2 + 0x100_0000 * b3
  }

  function Bytes(w: word): seq<byte> {
    [w % 0x100, w / 0x100 % 0x100, w / 0x1_0000 % 0x100, w / 0x100_0000]
  }

  // A stored word is the word loaded back.
  lemma LoadBytes(m: seq<byte>, a: nat, w: word)
    requires a + 4 <= |m| && m[a..a + 4] == Bytes(w)
    ensures Load(m, a) == w
  {
    assert m[a] == m[a..a + 4][0] && m[a + 1] == m[a..a + 4][1];
    assert m[a + 2] == m[a..a + 4][2] && m[a + 3] == m[a..a + 4][3];
    FourBytes(w);
  }

  lemma FourBytes(w: int)
    requires 0 <= w
    ensures w ==
      w % 0x100 + 0x100 * (w / 0x100 % 0x100) + 0x1_0000 * (w / 0x1_0000 % 0x100) + 0x100_0000 * (w / 0x100_0000)
  {
    assert w / 0x1_0000 == w / 0x100 / 0x100 && w / 0x100_0000 == w / 0x1_0000 / 0x100;
  }

  // m with the bytes s written at address a.
  function Patch(m: seq<byte>, a: nat, s: seq<byte>): (r: seq<byte>)
    requires a + |s| <= |m|
    ensures |r| == |m| && r[a..a + |s|] == s
    ensures forall k :: 0 <= k < |m| && (k < a || a + |s| <= k) ==> r[k] == m[k]
  {
    m[..a] + s + m[a + |s|..]
  }

  // Writing one more byte behind a patch extends the patch.
  lemma PatchStep(m: seq<byte>, a: nat, s: seq<byte>, c: byte)
    requires a + |s| < |m|
    ensures Patch(m, a, s)[a + |s| := c] == Patch(m, a, s + [c])
  {
  }
}
