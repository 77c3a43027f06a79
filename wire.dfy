/** The 15-byte radio frame shared by both controller scripts:
    nonce (4) | state (6) | the same nonce (4) | additive checksum (1). */
module Wire {
  import opened Wrappers

  /** A value Python's `bytes(...)` accepts. */
  type Byte = x: int | 0 <= x < 256

  const NonceLength: nat := 4
  const PayloadLength: nat := 6
  const FrameLength: nat := 15

  /** The six state values the loop keeps between iterations. */
  datatype State = State(leftX: Byte, leftY: Byte, rightX: Byte, rightY: Byte,
                         buttons1: Byte, buttons2: Byte)

  /** Both scripts start from centred sticks and no buttons. */
  const InitialState := State(127, 127, 127, 127, 0, 0)

  /** The state list in wire order. */
  function Payload(s: State): (p: seq<Byte>)
    ensures |p| == PayloadLength
    ensures State(p[0], p[1], p[2], p[3], p[4], p[5]) == s
  {
    [s.leftX, s.leftY, s.rightX, s.rightY, s.buttons1, s.buttons2]
  }

  /** Python's `sum` over a byte string, added left to right. */
  function Sum(s: seq<Byte>): (r: int)
    ensures 0 <= r <= 255 * |s|
  {
    if s == [] then 0 else Sum(s[..|s| - 1]) + s[|s| - 1]
  }

  /** The sum reduced to one byte: the byte congruent to the sum mod 256. */
  function Checksum(s: seq<Byte>): (c: Byte)
    ensures (Sum(s) - c) % 256 == 0
  {
    Sum(s) % 256
  }

  /** The frame the scripts write for `nonce` and state `s`. */
  function Encode(nonce: seq<Byte>, s: State): (f: seq<Byte>)
    requires |nonce| == NonceLength
    ensures |f| == FrameLength
    ensures f[..4] == nonce && f[10..14] == nonce
    ensures f[4..10] == Payload(s)
    ensures f[14] == Checksum(f[..14])
  {
    var body := nonce + Payload(s) + nonce;
    assert body == (body + [Checksum(body)])[..14];
    body + [Checksum(body)]
  }

  /** What a receiver accepts: the right length, both nonce copies equal and a
      matching checksum; it yields the nonce and the state. */
  function Decode(f: seq<Byte>): Option<(seq<Byte>, State)>
  {
    if |f| == FrameLength && f[..4] == f[10..14] && f[14] == Checksum(f[..14]) then
      Some((f[..4], State(f[4], f[5], f[6], f[7], f[8], f[9])))
    else
      None
  }

  /** Builds the frame as the scripts do: concatenate, then append the sum of
      what is there so far, reduced mod 256. */
  method PackFrame(nonce: seq<Byte>, s: State) returns (packed: seq<Byte>)
    requires |nonce| == NonceLength
    ensures packed == Encode(nonce, s)
  {
    packed := nonce + Payload(s) + nonce;
    var total: int := 0;
    var i := 0;
    while i < |packed|
      invariant 0 <= i <= |packed|
      invariant total == Sum(packed[..i])
    {
      assert packed[..i + 1][..i] == packed[..i];
      total := total + packed[i];
      i := i + 1;
    }
    assert packed[..i] == packed;
    packed := packed + [total % 256];
  }

  /** Every frame the encoder produces is accepted and gives back its inputs. */
  lemma DecodeEncode(nonce: seq<Byte>, s: State)
    requires |nonce| == NonceLength
    ensures Decode(Encode(nonce, s)) == Some((nonce, s))
  {
  }

  /** Every frame a receiver accepts is exactly the encoding of what it decodes to. */
  lemma EncodeDecode(f: seq<Byte>)
    requires Decode(f).Some?
    ensures |Decode(f).value.0| == NonceLength
    ensures Encode(Decode(f).value.0, Decode(f).value.1) == f
  {
    var (n, s) := Decode(f).value;
    var g := Encode(n, s);
    assert g[..14] == f[..14] by {
      assert g[..4] == f[..4];
      assert g[4..10] == f[4..10];
      assert g[10..14] == f[10..14];
      assert g[..14] == g[..4] + g[4..10] + g[10..14];
      assert f[..14] == f[..4] + f[4..10] + f[10..14];
    }
    assert g == g[..14] + [g[14]];
    assert f == f[..14] + [f[14]];
  }

  /** Replacing one byte changes the sum by the difference. */
  lemma {:induction false} SumUpdate(s: seq<Byte>, i: nat, v: Byte)
    requires i < |s|
    ensures Sum(s[i := v]) == Sum(s) - s[i] + v
  {
    var n := |s| - 1;
    if i == n {
      assert s[i := v][..n] == s[..n];
    } else {
      assert s[i := v][..n] == s[..n][i := v];
      SumUpdate(s[..n], i, v);
    }
  }

  /** The additive checksum catches every single-byte corruption of an accepted frame. */
  lemma SingleByteErrorDetected(f: seq<Byte>, i: nat, v: Byte)
    requires Decode(f).Some?
    requires i < |f| && v != f[i]
    ensures Decode(f[i := v]) == None
  {
    var g := f[i := v];
    if i < 4 {
      assert g[..4][i] != g[10..14][i];
    } else if i < 10 {
      assert g[..4] == f[..4] && g[10..14] == f[10..14];
      assert g[..14] == f[..14][i := v];
      SumUpdate(f[..14], i, v);
      assert Sum(g[..14]) == Sum(f[..14]) - f[i] + v;
      assert 0 < v - f[i] < 256 || -256 < v - f[i] < 0;
    } else if i < 14 {
      assert g[..4][i - 10] != g[10..14][i - 10];
    } else {
      assert g[..14] == f[..14];
    }
  }

  /** The nonce as `to_bytes(4, 'little')` writes it. */
  function NonceBytes(r: nat): (b: seq<Byte>)
    requires r < 0x1_0000_0000
    ensures |b| == NonceLength
  {
    [r % 256, (r / 256) % 256, (r / 65536) % 256, r / 16777216]
  }

  /** The value a little-endian 4-byte string stands for. */
  function NonceValue(b: seq<Byte>): nat
    requires |b| == NonceLength
  {
    b[0] as int + 256 * b[1] as int + 65536 * b[2] as int + 16777216 * b[3] as int
  }

  lemma NonceValueBytes(r: nat)
    requires r < 0x1_0000_0000
    ensures NonceValue(NonceBytes(r)) == r
  {
  }

  lemma NonceBytesValue(b: seq<Byte>)
    requires |b| == NonceLength
    ensures NonceValue(b) < 0x1_0000_0000
    ensures NonceBytes(NonceValue(b)) == b
  {
    var r := NonceValue(b);
    var q1: int := b[1] as int + 256 * b[2] as int + 65536 * b[3] as int;
    var q2: int := b[2] as int + 256 * b[3] as int;
    assert r == q1 * 256 + b[0];
    assert r / 256 == q1 && r % 256 == b[0];
    assert q1 == q2 * 256 + b[1];
    assert q1 / 256 == q2 && q1 % 256 == b[1];
    assert q2 / 256 == b[3] && q2 % 256 == b[2];
    assert r / 65536 == q2;
    assert r / 16777216 == b[3];
  }

  /** The sum of the bytes of the frame in `ExampleFrame`, before the checksum. */
  lemma ExampleSum()
    ensures Sum([1, 2, 3, 4, 200, 50, 30, 220, 160, 6, 1, 2, 3, 4]) == 686
  {
    var body: seq<Byte> := [1, 2, 3, 4, 200, 50, 30, 220, 160, 6, 1, 2, 3, 4];
    assert body[..1][..0] == []; assert Sum(body[..1]) == 1;
    assert Sum(body[..2]) == 3 by { assert body[..2][..1] == body[..1]; }
    assert Sum(body[..3]) == 6 by { assert body[..3][..2] == body[..2]; }
    assert Sum(body[..4]) == 10 by { assert body[..4][..3] == body[..3]; }
    assert Sum(body[..5]) == 210 by { assert body[..5][..4] == body[..4]; }
    assert Sum(body[..6]) == 260 by { assert body[..6][..5] == body[..5]; }
    assert Sum(body[..7]) == 290 by { assert body[..7][..6] == body[..6]; }
    assert Sum(body[..8]) == 510 by { assert body[..8][..7] == body[..7]; }
    assert Sum(body[..9]) == 670 by { assert body[..9][..8] == body[..8]; }
    assert Sum(body[..10]) == 676 by { assert body[..10][..9] == body[..9]; }
    assert Sum(body[..11]) == 677 by { assert body[..11][..10] == body[..10]; }
    assert Sum(body[..12]) == 679 by { assert body[..12][..11] == body[..11]; }
    assert Sum(body[..13]) == 682 by { assert body[..13][..12] == body[..12]; }
    assert Sum(body[..14]) == 686 by { assert body[..14][..13] == body[..13]; }
    assert body[..14] == body;
  }

  /** The byte order of `to_bytes(4, 'little')`: the value 0x04030201 goes out
      as the bytes 01 02 03 04. With state [200, 50, 30, 220, 160, 6] the bytes
      before the checksum add up to 686, and 686 mod 256 = 174. */
  lemma ExampleFrame()
    ensures NonceBytes(0x04030201) == [1, 2, 3, 4]
    ensures Encode([1, 2, 3, 4], State(200, 50, 30, 220, 160, 6))
         == [1, 2, 3, 4, 200, 50, 30, 220, 160, 6, 1, 2, 3, 4, 174]
  {
    var body: seq<Byte> := [1, 2, 3, 4, 200, 50, 30, 220, 160, 6, 1, 2, 3, 4];
    ExampleSum();
    var st := State(200, 50, 30, 220, 160, 6);
    assert [1, 2, 3, 4] + Payload(st) + [1, 2, 3, 4] == body;
    assert Checksum(body) == 174;
  }
}
