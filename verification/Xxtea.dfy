/**
  The block cipher of the radio link: six rounds of XXTEA over the 32-bit
  little-endian words of a byte buffer.
 */
module Xxtea {
  import opened Bytes

  const DELTA: word32 := 0x9E37_79B9
  const ROUNDS: nat := 6

  type Key = k: seq<word32> | |k| == 4 witness [0, 0, 0, 0]

  /** An update of a word from its old value, `y`, `z`, `sum` and `p`. */
  type Step = (word32, word32, word32, word32, nat) -> word32

  /** The index `(p & 3) ^ e`, with `e` the two bits of `sum` above the lowest two. */
  function KeyIndex(p: nat, sum: word32): (i: nat)
    ensures i < 4
  {
    ((p % 4) as bv2 ^ (sum / 4 % 4) as bv2) as int
  }

  function Mix(y: bv32, z: bv32, sum: bv32, k: bv32): bv32 {
    (((z >> 5) ^ (y << 2)) + ((y >> 3) ^ (z << 4))) ^ ((sum ^ y) + (k ^ z))
  }

  function Mx(key: Key, y: word32, z: word32, sum: word32, p: nat): word32 {
    Mix(y as bv32, z as bv32, sum as bv32, key[KeyIndex(p, sum)] as bv32) as int
  }

  /** `v[p] += MX` */
  function Up(key: Key): Step {
    (x: word32, y: word32, z: word32, sum: word32, p: nat) => (x + Mx(key, y, z, sum, p)) % WRAP32
  }

  /** `v[p] -= MX` */
  function Down(key: Key): Step {
    (x: word32, y: word32, z: word32, sum: word32, p: nat) => (x - Mx(key, y, z, sum, p)) % WRAP32
  }

  ghost predicate Undoes(down: Step, up: Step) {
    forall x, y, z, sum, p :: down(up(x, y, z, sum, p), y, z, sum, p) == x
  }

  lemma DownUndoesUp(key: Key)
    ensures Undoes(Down(key), Up(key))
  {
    hide Mx;
  }

  function Next(i: nat, n: nat): nat { if i + 1 == n then 0 else i + 1 }

  function Prev(i: nat, n: nat): nat
    requires n > 0
  {
    if i == 0 then n - 1 else i - 1
  }

  /** Word `i` updated from its two neighbours. */
  function Bump(step: Step, v: seq<word32>, sum: word32, i: nat): (r: seq<word32>)
    requires i < |v|
    ensures |r| == |v|
  {
    v[i := step(v[i], v[Next(i, |v|)], v[Prev(i, |v|)], sum, i)]
  }

  /** One encoding round from word `p` upwards. */
  function Pass(step: Step, v: seq<word32>, sum: word32, p: nat): (r: seq<word32>)
    requires p <= |v|
    ensures |r| == |v|
    decreases |v| - p
  {
    if p == |v| then v else Pass(step, Bump(step, v, sum, p), sum, p + 1)
  }

  /** One decoding round from word `p - 1` downwards. */
  function UnPass(step: Step, v: seq<word32>, sum: word32, p: nat): (r: seq<word32>)
    requires p <= |v|
    ensures |r| == |v|
    decreases p
  {
    if p == 0 then v else UnPass(step, Bump(step, v, sum, p - 1), sum, p - 1)
  }

  /** The value of `sum` in round `k`, modulo 2^32. */
  function Sum(k: nat): word32 {
    if k == 0 then 0 else (Sum(k - 1) + DELTA) % WRAP32
  }

  function Rounds(step: Step, v: seq<word32>, k: nat): (r: seq<word32>)
    ensures |r| == |v|
    decreases k
  {
    if k == 0 then v else Pass(step, Rounds(step, v, k - 1), Sum(k), 0)
  }

  function UnRounds(step: Step, v: seq<word32>, k: nat): (r: seq<word32>)
    ensures |r| == |v|
    decreases k
  {
    if k == 0 then v else UnRounds(step, UnPass(step, v, Sum(k), |v|), k - 1)
  }

  // Decoding undoes encoding, whatever the mixing term computes.

  /** With at least two words no word is its own neighbour. */
  lemma BumpUndone(up: Step, down: Step, v: seq<word32>, sum: word32, i: nat)
    requires Undoes(down, up) && |v| > 1 && i < |v|
    ensures Bump(down, Bump(up, v, sum, i), sum, i) == v
  {
    var y, z := v[Next(i, |v|)], v[Prev(i, |v|)];
    assert down(up(v[i], y, z, sum, i), y, z, sum, i) == v[i];
  }

  lemma {:induction false} UnPassUndoesPass(up: Step, down: Step, v: seq<word32>, sum: word32, p: nat)
    requires Undoes(down, up) && |v| > 1 && p <= |v|
    ensures UnPass(down, Pass(up, v, sum, p), sum, |v|) == UnPass(down, v, sum, p)
    decreases |v| - p
  {
    if p < |v| {
      UnPassUndoesPass(up, down, Bump(up, v, sum, p), sum, p + 1);
      BumpUndone(up, down, v, sum, p);
    }
  }

  lemma {:induction false} UnRoundsUndoesRounds(up: Step, down: Step, v: seq<word32>, k: nat)
    requires Undoes(down, up) && |v| > 1
    ensures UnRounds(down, Rounds(up, v, k), k) == v
    decreases k
  {
    if k > 0 {
      UnPassUndoesPass(up, down, Rounds(up, v, k - 1), Sum(k), 0);
      UnRoundsUndoesRounds(up, down, v, k - 1);
    }
  }

  /** The decoder's loop test `(sum -= DELTA) != 0` stops it after exactly six rounds. */
  lemma DecoderRunsSixRounds(k: nat)
    requires k <= ROUNDS
    ensures Sum(ROUNDS) == ROUNDS * DELTA % WRAP32
    ensures Sum(k) == 0 <==> k == 0
    ensures k > 0 ==> (Sum(k) - DELTA) % WRAP32 == Sum(k - 1)
  {
    assert Sum(1) == 0x9E37_79B9;
    assert Sum(2) == 0x3C6E_F372;
    assert Sum(3) == 0xDAA6_6D2B;
    assert Sum(4) == 0x78DD_E6E4;
    assert Sum(5) == 0x1715_609D;
    assert Sum(6) == 0xB54C_DA56;
  }

  // A worked example.

  /** The mixing term for one neighbour on both sides, from its bits. */
  lemma MxFrom(key: Key, y: word32, sum: word32, p: nat, i: nat, yb: bv32, sb: bv32, kb: bv32, m: bv32)
    requires yb as int == y && sb as int == sum && i < 4 && kb as int == key[i]
    requires KeyIndex(p, sum) == i && Mix(yb, yb, sb, kb) == m
    ensures Mx(key, y, y, sum, p) == m as int
  {
    hide Mix, KeyIndex;
    BitsOfWord(y, yb);
    BitsOfWord(sum, sb);
    BitsOfWord(key[i], kb);
  }

  lemma BitsOfWord(w: word32, b: bv32)
    requires b as int == w
    ensures w as bv32 == b
  {
  }

  lemma ExampleStart(key: Key)
    requires key == [1, 2, 3, 4]
    ensures Mx(key, 0x0405_0607, 0x0405_0607, 0x9E37_79B9, 0) == 0xCF33_751E
    ensures Mx(key, 0xCF34_7721, 0xCF34_7721, 0x9E37_79B9, 1) == 0x057D_F98C
    ensures Mx(key, 0x0982_FF93, 0x0982_FF93, 0x3C6E_F372, 0) == 0x8008_9C01
    ensures Mx(key, 0x4F3D_1322, 0x4F3D_1322, 0x3C6E_F372, 1) == 0xFA54_C725
    ensures Mx(key, 0x03D7_C6B8, 0x03D7_C6B8, 0xDAA6_6D2B, 0) == 0x9101_4A62
    ensures Mx(key, 0xE03E_5D84, 0xE03E_5D84, 0xDAA6_6D2B, 1) == 0xBD0C_16C3
  {
    MxFrom(key, 0x0405_0607, 0x9E37_79B9, 0, 2, 0x0405_0607, 0x9E37_79B9, 3, 0xCF33_751E);
    MxFrom(key, 0xCF34_7721, 0x9E37_79B9, 1, 3, 0xCF34_7721, 0x9E37_79B9, 4, 0x057D_F98C);
    MxFrom(key, 0x0982_FF93, 0x3C6E_F372, 0, 0, 0x0982_FF93, 0x3C6E_F372, 1, 0x8008_9C01);
    MxFrom(key, 0x4F3D_1322, 0x3C6E_F372, 1, 1, 0x4F3D_1322, 0x3C6E_F372, 2, 0xFA54_C725);
    MxFrom(key, 0x03D7_C6B8, 0xDAA6_6D2B, 0, 2, 0x03D7_C6B8, 0xDAA6_6D2B, 3, 0x9101_4A62);
    MxFrom(key, 0xE03E_5D84, 0xDAA6_6D2B, 1, 3, 0xE03E_5D84, 0xDAA6_6D2B, 4, 0xBD0C_16C3);
  }

  lemma ExampleEnd(key: Key)
    requires key == [1, 2, 3, 4]
    ensures Mx(key, 0xC0E3_DD7B, 0xC0E3_DD7B, 0x78DD_E6E4, 0) == 0x6288_0E3E
    ensures Mx(key, 0x42C6_6BC2, 0x42C6_6BC2, 0x78DD_E6E4, 1) == 0x51AF_F547
    ensures Mx(key, 0x1293_D2C2, 0x1293_D2C2, 0x1715_609D, 0) == 0x6E51_A933
    ensures Mx(key, 0xB118_14F5, 0xB118_14F5, 0x1715_609D, 1) == 0x9EAF_681F
    ensures Mx(key, 0xB143_3AE1, 0xB143_3AE1, 0xB54C_DA56, 0) == 0x77F1_A005
    ensures Mx(key, 0x2909_B4FA, 0x2909_B4FA, 0xB54C_DA56, 1) == 0xFE66_3429
  {
    MxFrom(key, 0xC0E3_DD7B, 0x78DD_E6E4, 0, 1, 0xC0E3_DD7B, 0x78DD_E6E4, 2, 0x6288_0E3E);
    MxFrom(key, 0x42C6_6BC2, 0x78DD_E6E4, 1, 0, 0x42C6_6BC2, 0x78DD_E6E4, 1, 0x51AF_F547);
    MxFrom(key, 0x1293_D2C2, 0x1715_609D, 0, 3, 0x1293_D2C2, 0x1715_609D, 4, 0x6E51_A933);
    MxFrom(key, 0xB118_14F5, 0x1715_609D, 1, 2, 0xB118_14F5, 0x1715_609D, 3, 0x9EAF_681F);
    MxFrom(key, 0xB143_3AE1, 0xB54C_DA56, 0, 1, 0xB143_3AE1, 0xB54C_DA56, 2, 0x77F1_A005);
    MxFrom(key, 0x2909_B4FA, 0xB54C_DA56, 1, 0, 0x2909_B4FA, 0xB54C_DA56, 1, 0xFE66_3429);
  }

  /** One round on two words, each the other's neighbour on both sides. */
  lemma ExampleRound(key: Key, v0: word32, v1: word32, sum: word32, m0: word32, m1: word32)
    requires Mx(key, v1, v1, sum, 0) == m0 && Mx(key, (v0 + m0) % WRAP32, (v0 + m0) % WRAP32, sum, 1) == m1
    ensures Pass(Up(key), [v0, v1], sum, 0) == [(v0 + m0) % WRAP32, (v1 + m1) % WRAP32]
  {
    hide Mx;
    var v := [v0, v1];
    var w := Bump(Up(key), v, sum, 0);
    assert w == [(v0 + m0) % WRAP32, v1];
    var x := Bump(Up(key), w, sum, 1);
    assert x == [(v0 + m0) % WRAP32, (v1 + m1) % WRAP32];
    assert Pass(Up(key), x, sum, 2) == x;
    assert Pass(Up(key), w, sum, 1) == x;
  }

  /** What two words become with the key words 1, 2, 3 and 4. */
  lemma CipherExample()
    ensures Rounds(Up([1, 2, 3, 4]), [0x0001_0203, 0x0405_0607], ROUNDS) == [0x2909_B4FA, 0xAFA9_6F0A]
  {
    hide Mx, Pass;
    var key: Key := [1, 2, 3, 4];
    var v := [0x0001_0203, 0x0405_0607];
    ExampleStart(key);
    ExampleEnd(key);
    assert Rounds(Up(key), v, 0) == v;
    assert Sum(1) == 0x9E37_79B9;
    ExampleRound(key, 0x0001_0203, 0x0405_0607, 0x9E37_79B9, 0xCF33_751E, 0x057D_F98C);
    assert Rounds(Up(key), v, 1) == [0xCF34_7721, 0x0982_FF93];
    assert Sum(2) == 0x3C6E_F372;
    ExampleRound(key, 0xCF34_7721, 0x0982_FF93, 0x3C6E_F372, 0x8008_9C01, 0xFA54_C725);
    assert Rounds(Up(key), v, 2) == [0x4F3D_1322, 0x03D7_C6B8];
    assert Sum(3) == 0xDAA6_6D2B;
    ExampleRound(key, 0x4F3D_1322, 0x03D7_C6B8, 0xDAA6_6D2B, 0x9101_4A62, 0xBD0C_16C3);
    assert Rounds(Up(key), v, 3) == [0xE03E_5D84, 0xC0E3_DD7B];
    assert Sum(4) == 0x78DD_E6E4;
    ExampleRound(key, 0xE03E_5D84, 0xC0E3_DD7B, 0x78DD_E6E4, 0x6288_0E3E, 0x51AF_F547);
    assert Rounds(Up(key), v, 4) == [0x42C6_6BC2, 0x1293_D2C2];
    assert Sum(5) == 0x1715_609D;
    ExampleRound(key, 0x42C6_6BC2, 0x1293_D2C2, 0x1715_609D, 0x6E51_A933, 0x9EAF_681F);
    assert Rounds(Up(key), v, 5) == [0xB118_14F5, 0xB143_3AE1];
    assert Sum(6) == 0xB54C_DA56;
    ExampleRound(key, 0xB118_14F5, 0xB143_3AE1, 0xB54C_DA56, 0x77F1_A005, 0xFE66_3429);
    assert Rounds(Up(key), v, 6) == [0x2909_B4FA, 0xAFA9_6F0A];
  }

  /** Of three words the first is updated from the second as `y` and the third as `z`. */
  lemma NeighbourExample()
    ensures
      Bump(Up([1, 2, 3, 4]), [0x0001_0203, 0x0405_0607, 0x0809_0A0B], 0x9E37_79B9, 0) ==
        [0x3260_DB7D, 0x0405_0607, 0x0809_0A0B]
  {
    hide Mix;
    var key: Key := [1, 2, 3, 4];
    MixExample();
    assert KeyIndex(0, 0x9E37_79B9) == 2;
    BitsOfWord(0x0405_0607, 0x0405_0607);
    BitsOfWord(0x0809_0A0B, 0x0809_0A0B);
    BitsOfWord(0x9E37_79B9, 0x9E37_79B9);
    BitsOfWord(3, 3);
    assert Mx(key, 0x0405_0607, 0x0809_0A0B, 0x9E37_79B9, 0) == 0x325F_D97A;
  }

  lemma MixExample()
    ensures Mix(0x0405_0607, 0x0809_0A0B, 0x9E37_79B9, 3) == 0x325F_D97A
  {
  }

  // The byte buffer seen as little-endian words.

  function Load(d: seq<byte>, i: nat): word32
    requires 4 * i + 4 <= |d|
  {
    Word32(d[4 * i], d[4 * i + 1], d[4 * i + 2], d[4 * i + 3])
  }

  function Words(d: seq<byte>): (v: seq<word32>)
    requires |d| % 4 == 0
    ensures |v| == |d| / 4
    ensures forall i :: 0 <= i < |v| ==> v[i] == Load(d, i)
  {
    seq(|d| / 4, i requires 0 <= i < |d| / 4 => Load(d, i))
  }

  function Unwords(v: seq<word32>): (d: seq<byte>)
    ensures |d| == 4 * |v|
    ensures forall j :: 0 <= j < |d| ==> d[j] == ByteOf(v[j / 4], j % 4)
  {
    seq(4 * |v|, j requires 0 <= j < 4 * |v| => ByteOf(v[j / 4], j % 4))
  }

  lemma UnwordsOfWords(d: seq<byte>)
    requires |d| % 4 == 0
    ensures Unwords(Words(d)) == d
  {
    forall j | 0 <= j < |d| ensures Unwords(Words(d))[j] == d[j] {
      ByteOfLoad(d, j / 4, j % 4);
    }
  }

  lemma ByteOfLoad(d: seq<byte>, i: nat, r: nat)
    requires 4 * i + 4 <= |d| && r < 4
    ensures ByteOf(Load(d, i), r) == d[4 * i + r]
  {
    hide Word32, ByteOf;
    Word32Bytes(d[4 * i], d[4 * i + 1], d[4 * i + 2], d[4 * i + 3]);
  }

  lemma WordsOfUnwords(v: seq<word32>)
    ensures Words(Unwords(v)) == v
  {
    forall i | 0 <= i < |v| ensures Words(Unwords(v))[i] == v[i] {
      LoadUnwords(v, i);
    }
  }

  lemma LoadUnwords(v: seq<word32>, i: nat)
    requires i < |v|
    ensures Load(Unwords(v), i) == v[i]
  {
    hide Word32, ByteOf;
    var d := Unwords(v);
    assert (4 * i) / 4 == i && (4 * i) % 4 == 0;
    assert d[4 * i] == ByteOf(v[i], 0);
    assert d[4 * i + 1] == ByteOf(v[i], 1);
    assert d[4 * i + 2] == ByteOf(v[i], 2);
    assert d[4 * i + 3] == ByteOf(v[i], 3);
    Word32RoundTrip(v[i]);
  }

  /** The cipher on a byte buffer; a single word is left alone. */
  function Encode(key: Key, d: seq<byte>): (r: seq<byte>)
    requires |d| % 4 == 0
    ensures |r| == |d|
  {
    if |d| > 4 then Unwords(Rounds(Up(key), Words(d), ROUNDS)) else d
  }

  function Decode(key: Key, d: seq<byte>): (r: seq<byte>)
    requires |d| % 4 == 0
    ensures |r| == |d|
  {
    if |d| > 4 then Unwords(UnRounds(Down(key), Words(d), ROUNDS)) else d
  }

  /** The example as bytes: the words are little-endian. */
  lemma CipherExampleBytes()
    ensures
      Encode([1, 2, 3, 4], [0x03, 0x02, 0x01, 0x00, 0x07, 0x06, 0x05, 0x04]) ==
        [0xFA, 0xB4, 0x09, 0x29, 0x0A, 0x6F, 0xA9, 0xAF]
  {
    hide Rounds, Mx, Byte, Num;
    var d: seq<byte> := [0x03, 0x02, 0x01, 0x00, 0x07, 0x06, 0x05, 0x04];
    var e: seq<byte> := [0xFA, 0xB4, 0x09, 0x29, 0x0A, 0x6F, 0xA9, 0xAF];
    var v, w := [0x0001_0203, 0x0405_0607], [0x2909_B4FA, 0xAFA9_6F0A];
    ExampleWords();
    assert Words(d) == v;
    assert Words(e) == w;
    CipherExample();
    UnwordsOfWords(e);
  }

  lemma ExampleWords()
    ensures Word32(0x03, 0x02, 0x01, 0x00) == 0x0001_0203 && Word32(0x07, 0x06, 0x05, 0x04) == 0x0405_0607
    ensures Word32(0xFA, 0xB4, 0x09, 0x29) == 0x2909_B4FA && Word32(0x0A, 0x6F, 0xA9, 0xAF) == 0xAFA9_6F0A
  {
  }

  lemma DecodeUndoesEncode(key: Key, d: seq<byte>)
    requires |d| % 4 == 0
    ensures Decode(key, Encode(key, d)) == d
  {
    if |d| > 4 {
      WordsOfUnwords(Rounds(Up(key), Words(d), ROUNDS));
      DownUndoesUp(key);
      UnRoundsUndoesRounds(Up(key), Down(key), Words(d), ROUNDS);
      UnwordsOfWords(d);
    }
  }

  /** The four bytes of a word stored. */
  function WithWord(d: seq<byte>, i: nat, w: word32): (r: seq<byte>)
    requires 4 * i + 4 <= |d|
    ensures |r| == |d|
  {
    hide ByteOf;
    d[4 * i := ByteOf(w, 0)][4 * i + 1 := ByteOf(w, 1)][4 * i + 2 := ByteOf(w, 2)][4 * i + 3 := ByteOf(w, 3)]
  }

  /** Writing the bytes of one word changes that word only. */
  lemma StoreWord(d: seq<byte>, i: nat, w: word32)
    requires |d| % 4 == 0 && i < |d| / 4
    ensures Words(WithWord(d, i, w)) == Words(d)[i := w]
  {
    hide ByteOf, Word32;
    var e := WithWord(d, i, w);
    forall k | 0 <= k < |d| / 4 ensures Words(e)[k] == Words(d)[i := w][k] {
      if k == i {
        Word32RoundTrip(w);
      }
    }
  }

  /** A buffer is what surrounds a block of words, and the bytes of those words. */
  lemma Rejoin(s: seq<byte>, at: nat, n: nat)
    requires at + 4 * n <= |s|
    ensures s == s[..at] + Unwords(Words(s[at..at + 4 * n])) + s[at + 4 * n..]
  {
    hide Words, Unwords;
    var block := s[at..at + 4 * n];
    UnwordsOfWords(block);
    Cut(s, at, at + 4 * n);
  }

  lemma Cut(s: seq<byte>, i: nat, j: nat)
    requires i <= j <= |s|
    ensures s == s[..i] + s[i..j] + s[j..]
  {
  }
}
