/**
 `hash_u32` and `hashlittle`: the reading loops, their fall-through tails, and the three ways of reading
 a byte string that depend on its address.
 */
module HashBytes {
  import opened Numbers
  import opened Lookup3

  type Byte = x: int | 0 <= x < 256

  const START: int := 0xdeadbeef

  // ---- Words ----

  /** A key of words, read past its end as zeros. */
  function KeyWord(k: seq<Uint32>, i: nat): Uint32 {
    if i < |k| then k[i] else 0
  }

  /** All but the last, possibly partial, block of three. */
  function FullBlocks(length: nat, size: nat): nat
    requires size > 0
  {
    if length == 0 then 0 else (length - 1) / size
  }

  function Begin(length: nat, initval: Uint32): State {
    var x := (START + length + initval) % TWO32;
    State(x, x, x)
  }

  /** The hash of a key of words: full blocks mixed, the last one padded with zeros and finished. */
  function WordHash(k: seq<Uint32>, initval: Uint32): State {
    var s, n := Begin(4 * |k|, initval), FullBlocks(|k|, 3);
    if |k| == 0 then s
    else Final(AddBlock(AfterBlocks(k, s, n), KeyWord(k, 3 * n), KeyWord(k, 3 * n + 1), KeyWord(k, 3 * n + 2)))
  }

  lemma AddZero(x: Uint32)
    ensures Add(x, 0) == x
  {
  }

  /** For a fixed key no two initial values end in the same state. */
  lemma InitvalKept(k: seq<Uint32>, i: Uint32, j: Uint32)
    requires WordHash(k, i) == WordHash(k, j)
    ensures i == j
  {
    hide Final, Unfinal, AddBlock, TakeBlock, AfterBlocks, BeforeBlocks;
    var si, sj, n := Begin(4 * |k|, i), Begin(4 * |k|, j), FullBlocks(|k|, 3);
    if |k| > 0 {
      var k0, k1, k2 := KeyWord(k, 3 * n), KeyWord(k, 3 * n + 1), KeyWord(k, 3 * n + 2);
      FinalBack(AddBlock(AfterBlocks(k, si, n), k0, k1, k2));
      FinalBack(AddBlock(AfterBlocks(k, sj, n), k0, k1, k2));
      BlockBack(AfterBlocks(k, si, n), k0, k1, k2);
      BlockBack(AfterBlocks(k, sj, n), k0, k1, k2);
      BlocksBack(k, si, n);
      BlocksBack(k, sj, n);
    }
    assert si.a == sj.a;
  }

  /** The loop of `hash_u32`: how far it goes and what it leaves. */
  method MixWords(k: seq<Uint32>, s0: State) returns (s: State, at: nat, length: nat)
    requires |k| > 0
    ensures at == 3 * FullBlocks(|k|, 3) && at + length == |k| && s == AfterBlocks(k, s0, FullBlocks(|k|, 3))
  {
    hide Mix, Add;
    s, at, length := s0, 0, |k|;
    ghost var n := 0;
    while length > 3
      invariant at == 3 * n && length + at == |k| && 0 <= n && length > 0 && n <= FullBlocks(|k|, 3)
      invariant s == AfterBlocks(k, s0, n)
    {
      s := s.(a := Add(s.a, k[at]));
      s := s.(b := Add(s.b, k[at + 1]));
      s := s.(c := Add(s.c, k[at + 2]));
      s := Mix(s);
      length, at, n := length - 3, at + 3, n + 1;
    }
  }

  /** Only the low 32 bits of the length enter the state. */
  lemma Truncated(length: nat, scale: nat, initval: Uint32)
    ensures (START + scale * (length % TWO32) + initval) % TWO32 == (START + scale * length + initval) % TWO32
  {
    var x, q, base := length % TWO32, length / TWO32, START + initval;
    assert scale * length == scale * x + TWO32 * (scale * q) by { assert length == x + TWO32 * q; }
    var y := base + scale * x;
    ModUnique(base + scale * length, TWO32, y / TWO32 + scale * q, y % TWO32);
  }

  /** `hash_u32`. */
  method HashU32(k: seq<Uint32>, initval: Uint32) returns (hash: Uint32)
    ensures hash == WordHash(k, initval).c
  {
    hide Final, Add, AfterBlocks;
    Truncated(|k|, 4, initval);
    var x := (START + 4 * (|k| % TWO32) + initval) % TWO32;
    var s, at, length := State(x, x, x), 0, |k|;
    assert s == Begin(4 * |k|, initval);
    if length > 0 {
      s, at, length := MixWords(k, s);
      AddZero(s.b);
      AddZero(s.c);
      if length >= 3 { s := s.(c := Add(s.c, k[at + 2])); }
      if length >= 2 { s := s.(b := Add(s.b, k[at + 1])); }
      s := s.(a := Add(s.a, k[at]));
      s := Final(s);
    }
    hash := s.c;
  }

  // ---- Bytes ----

  /** A key of bytes, read past its end as zeros. */
  function KeyByte(k: seq<Byte>, i: nat): Byte {
    if i < |k| then k[i] else 0
  }

  /** Four bytes as a little-endian word. */
  function WordAt(k: seq<Byte>, i: nat): Uint32 {
    KeyByte(k, i) + 256 * KeyByte(k, i + 1) + 65536 * KeyByte(k, i + 2) + 16777216 * KeyByte(k, i + 3)
  }

  function AfterByteBlocks(k: seq<Byte>, s: State, n: nat): State {
    if n == 0 then s
    else Mix(AddBlock(AfterByteBlocks(k, s, n - 1), WordAt(k, 12 * n - 12), WordAt(k, 12 * n - 8),
      WordAt(k, 12 * n - 4)))
  }

  /** The state before `final`: the last block padded with zero bytes. */
  function LastBlock(k: seq<Byte>, s: State, n: nat): State {
    AddBlock(AfterByteBlocks(k, s, n), WordAt(k, 12 * n), WordAt(k, 12 * n + 4), WordAt(k, 12 * n + 8))
  }

  /** Both hashes of a byte string, with no mention of how it is read. An empty one leaves `val2` alone. */
  function ByteHash(k: seq<Byte>, val2: Uint32): (Uint32, Uint32) {
    var s := Begin(|k|, val2);
    if |k| == 0 then (s.c, val2)
    else
      var e := Final(LastBlock(k, s, FullBlocks(|k|, 12)));
      (e.c, e.b)
  }

  // ---- What the machine reads ----

  /** `((uint32_t)b) << 8*j`. */
  function Up(b: Byte, j: nat): Uint32 {
    if j == 0 then b else if j == 1 then 256 * b else if j == 2 then 65536 * b else 16777216 * b
  }

  /** An aligned 32-bit read on a little-endian machine. */
  function Load32(k: seq<Byte>, i: nat): Uint32
    requires i + 4 <= |k|
  {
    Up(k[i], 0) + Up(k[i + 1], 1) + Up(k[i + 2], 2) + Up(k[i + 3], 3)
  }

  /** An aligned 16-bit read. */
  function Load16(k: seq<Byte>, i: nat): Uint32
    requires i + 2 <= |k|
  {
    Up(k[i], 0) + Up(k[i + 1], 1)
  }

  lemma AddTwo(a: Uint32, x: int, y: int)
    requires 0 <= x && 0 <= y && x + y < TWO32
    ensures Add(Add(a, x), y) == Add(a, x + y) && Add(Add(a, y), x) == Add(a, x + y)
  {
    ModAdd(a + x, y, TWO32);
    ModAdd(a + y, x, TWO32);
  }

  lemma WordIs(k: seq<Byte>, i: nat)
    ensures i + 4 <= |k| ==> Load32(k, i) == WordAt(k, i)
    ensures i + 4 <= |k| ==> Load16(k, i) + 65536 * Load16(k, i + 2) == WordAt(k, i)
    ensures |k| <= i ==> WordAt(k, i) == 0
    ensures |k| == i + 2 ==> Load16(k, i) == WordAt(k, i)
  {
  }

  /** One byte after another adds the same word, whichever end comes first; missing bytes add nothing. */
  lemma BytesUp(a: Uint32, k: seq<Byte>, i: nat)
    requires i + 4 <= |k|
    ensures Add(Add(Add(Add(a, k[i]), Up(k[i + 1], 1)), Up(k[i + 2], 2)), Up(k[i + 3], 3)) == Add(a, WordAt(k, i))
  {
    hide Add;
    var x0, x1, x2, x3 := k[i], Up(k[i + 1], 1), Up(k[i + 2], 2), Up(k[i + 3], 3);
    AddTwo(a, x0, x1);
    AddTwo(a, x0 + x1, x2);
    AddTwo(a, x0 + x1 + x2, x3);
  }

  /** The tail of the byte-wise branch for one word: the cases fall through from the highest byte present. */
  method TailBytes(a: Uint32, k: seq<Byte>, i: nat) returns (r: Uint32)
    ensures r == Add(a, WordAt(k, i))
  {
    hide Add;
    AddZero(a);
    r := a;
    if i + 3 < |k| { r := Add(r, Up(k[i + 3], 3)); }
    AddTwo(a, 65536 * KeyByte(k, i + 2), 16777216 * KeyByte(k, i + 3));
    if i + 2 < |k| { r := Add(r, Up(k[i + 2], 2)); }
    AddTwo(a, 256 * KeyByte(k, i + 1), 65536 * KeyByte(k, i + 2) + 16777216 * KeyByte(k, i + 3));
    if i + 1 < |k| { r := Add(r, Up(k[i + 1], 1)); }
    AddTwo(a, KeyByte(k, i), 256 * KeyByte(k, i + 1) + 65536 * KeyByte(k, i + 2) + 16777216 * KeyByte(k, i + 3));
    if i < |k| { r := Add(r, k[i]); }
  }

  /** Where the reading of the last block starts. */
  ghost predicate AtLast(k: seq<Byte>, s0: State, s: State, at: nat, length: int) {
    && |k| > 0 && at == 12 * FullBlocks(|k|, 12) && at + length == |k| && 1 <= length <= 12
    && s == AfterByteBlocks(k, s0, FullBlocks(|k|, 12))
  }

  /** An address divisible by 4: three word reads per block. */
  method Aligned32(k: seq<Byte>, s0: State) returns (s: State)
    requires |k| > 0
    ensures s == LastBlock(k, s0, FullBlocks(|k|, 12))
  {
    var at, length;
    s, at, length := Blocks32(k, s0);
    s := Tail32(k, s, at);
  }

  method Blocks32(k: seq<Byte>, s0: State) returns (s: State, at: nat, length: int)
    requires |k| > 0
    ensures AtLast(k, s0, s, at, length)
  {
    hide Mix, Add, Load32, WordAt;
    s, at, length := s0, 0, |k|;
    ghost var n := 0;
    while length > 12
      invariant at == 12 * n && length + at == |k| && 0 <= n && length > 0 && n <= FullBlocks(|k|, 12)
      invariant s == AfterByteBlocks(k, s0, n)
    {
      WordIs(k, at);
      WordIs(k, at + 4);
      WordIs(k, at + 8);
      s := s.(a := Add(s.a, Load32(k, at)));
      s := s.(b := Add(s.b, Load32(k, at + 4)));
      s := s.(c := Add(s.c, Load32(k, at + 8)));
      s := Mix(s);
      length, at, n := length - 12, at + 12, n + 1;
    }
  }

  method Tail32(k: seq<Byte>, s0: State, at: nat) returns (s: State)
    requires 1 <= |k| - at <= 12
    ensures s == AddBlock(s0, WordAt(k, at), WordAt(k, at + 4), WordAt(k, at + 8))
  {
    hide Add, WordAt, Load32;
    var a, b, c, length := s0.a, s0.b, s0.c, |k| - at;
    WordIs(k, at);
    WordIs(k, at + 4);
    WordIs(k, at + 8);
    AddZero(a);
    AddZero(b);
    AddZero(c);
    if length == 12 {
      c := Add(c, Load32(k, at + 8));
      b := Add(b, Load32(k, at + 4));
      a := Add(a, Load32(k, at));
    } else if length >= 8 {
      c := TailBytes(c, k, at + 8);
      b := Add(b, Load32(k, at + 4));
      a := Add(a, Load32(k, at));
    } else if length >= 4 {
      b := TailBytes(b, k, at + 4);
      a := Add(a, Load32(k, at));
    } else {
      a := TailBytes(a, k, at);
    }
    s := State(a, b, c);
  }

  /** An even address: six half-word reads per block. */
  method Aligned16(k: seq<Byte>, s0: State) returns (s: State)
    requires |k| > 0
    ensures s == LastBlock(k, s0, FullBlocks(|k|, 12))
  {
    var at, length;
    s, at, length := Blocks16(k, s0);
    s := Tail16(k, s, at);
  }

  /** `k[i] + (((uint32_t)k[i + 1])<<16)` over 16-bit chunks. */
  function TwoLoads(k: seq<Byte>, i: nat): Uint32
    requires i + 4 <= |k|
  {
    Load16(k, i) + 65536 * Load16(k, i + 2)
  }

  method Blocks16(k: seq<Byte>, s0: State) returns (s: State, at: nat, length: int)
    requires |k| > 0
    ensures AtLast(k, s0, s, at, length)
  {
    hide Mix, Add, Load16, WordAt;
    s, at, length := s0, 0, |k|;
    ghost var n := 0;
    while length > 12
      invariant at == 12 * n && length + at == |k| && 0 <= n && length > 0 && n <= FullBlocks(|k|, 12)
      invariant s == AfterByteBlocks(k, s0, n)
    {
      WordIs(k, at);
      WordIs(k, at + 4);
      WordIs(k, at + 8);
      s := s.(a := Add(s.a, TwoLoads(k, at)));
      s := s.(b := Add(s.b, TwoLoads(k, at + 4)));
      s := s.(c := Add(s.c, TwoLoads(k, at + 8)));
      s := Mix(s);
      length, at, n := length - 12, at + 12, n + 1;
    }
  }

  /** The cases for a word of which at most three bytes are there: the third byte, then a pair or a byte. */
  method TailPair(a: Uint32, k: seq<Byte>, i: nat) returns (r: Uint32)
    requires |k| <= i + 3
    ensures r == Add(a, WordAt(k, i))
  {
    hide Add;
    AddZero(a);
    r := a;
    AddTwo(a, KeyByte(k, i) + 256 * KeyByte(k, i + 1), 65536 * KeyByte(k, i + 2));
    if i + 2 < |k| { r := Add(r, Up(k[i + 2], 2)); }
    if i + 1 < |k| {
      r := Add(r, Load16(k, i));
    } else if i < |k| {
      r := Add(r, Up(k[i], 0));
    }
  }

  method Tail16(k: seq<Byte>, s0: State, at: nat) returns (s: State)
    requires 1 <= |k| - at <= 12
    ensures s == AddBlock(s0, WordAt(k, at), WordAt(k, at + 4), WordAt(k, at + 8))
  {
    hide Add, WordAt, Load16;
    var a, b, c, length := s0.a, s0.b, s0.c, |k| - at;
    WordIs(k, at);
    WordIs(k, at + 4);
    WordIs(k, at + 8);
    AddZero(a);
    AddZero(b);
    AddZero(c);
    if length == 12 {
      c := Add(c, TwoLoads(k, at + 8));
      b := Add(b, TwoLoads(k, at + 4));
      a := Add(a, TwoLoads(k, at));
    } else if length >= 8 {
      c := TailPair(c, k, at + 8);
      b := Add(b, TwoLoads(k, at + 4));
      a := Add(a, TwoLoads(k, at));
    } else if length >= 4 {
      b := TailPair(b, k, at + 4);
      a := Add(a, TwoLoads(k, at));
    } else {
      a := TailPair(a, k, at);
    }
    s := State(a, b, c);
  }

  /** Any address: twelve byte reads per block. */
  method Unaligned(k: seq<Byte>, s0: State) returns (s: State)
    requires |k| > 0
    ensures s == LastBlock(k, s0, FullBlocks(|k|, 12))
  {
    hide Add, WordAt;
    var at, length;
    s, at, length := Blocks8(k, s0);
    var c := TailBytes(s.c, k, at + 8);
    var b := TailBytes(s.b, k, at + 4);
    var a := TailBytes(s.a, k, at);
    s := State(a, b, c);
  }

  /** `a += k[i]; a += ((uint32_t)k[i + 1])<<8; ...` for a word that is all there. */
  method AddBytes(a: Uint32, k: seq<Byte>, i: nat) returns (r: Uint32)
    requires i + 4 <= |k|
    ensures r == Add(a, WordAt(k, i))
  {
    hide Add, WordAt;
    BytesUp(a, k, i);
    r := Add(a, k[i]);
    r := Add(r, Up(k[i + 1], 1));
    r := Add(r, Up(k[i + 2], 2));
    r := Add(r, Up(k[i + 3], 3));
  }

  method Blocks8(k: seq<Byte>, s0: State) returns (s: State, at: nat, length: int)
    requires |k| > 0
    ensures AtLast(k, s0, s, at, length)
  {
    hide Mix, Add, WordAt;
    s, at, length := s0, 0, |k|;
    ghost var n := 0;
    while length > 12
      invariant at == 12 * n && length + at == |k| && 0 <= n && length > 0 && n <= FullBlocks(|k|, 12)
      invariant s == AfterByteBlocks(k, s0, n)
    {
      var a := AddBytes(s.a, k, at);
      var b := AddBytes(s.b, k, at + 4);
      var c := AddBytes(s.c, k, at + 8);
      s := Mix(State(a, b, c));
      length, at, n := length - 12, at + 12, n + 1;
    }
  }

  /**
   `hashlittle` on a little-endian machine: whatever the address, the two hashes are those of the bytes.
   */
  method HashLittle(k: seq<Byte>, address: nat, val2: Uint32) returns (hash: Uint32, val2': Uint32)
    ensures (hash, val2') == ByteHash(k, val2)
  {
    hide Final, LastBlock;
    Truncated(|k|, 1, val2);
    var x := (START + |k| % TWO32 + val2) % TWO32;
    var s := State(x, x, x);
    assert s == Begin(|k|, val2);
    if |k| == 0 { return s.c, val2; }
    if address % 4 == 0 {
      s := Aligned32(k, s);
    } else if address % 2 == 0 {
      s := Aligned16(k, s);
    } else {
      s := Unaligned(k, s);
    }
    s := Final(s);
    return s.c, s.b;
  }

  // ---- Words and bytes ----

  /** A key of words as a little-endian machine stores it. */
  function Stored(k: seq<Uint32>): (b: seq<Byte>)
    ensures |b| == 4 * |k|
  {
    seq(4 * |k|, i requires 0 <= i < 4 * |k| => ByteOf(k[i / 4], i % 4))
  }

  function ByteOf(w: Uint32, j: nat): Byte {
    if j == 0 then w % 256 else if j == 1 then w / 256 % 256 else if j == 2 then w / 65536 % 256 else w / 16777216 % 256
  }

  lemma FourBytes(w: Uint32)
    ensures ByteOf(w, 0) + 256 * ByteOf(w, 1) + 65536 * ByteOf(w, 2) + 16777216 * ByteOf(w, 3) == w
  {
    var q1 := w / 256;
    var q2 := q1 / 256;
    assert q1 == w / 256 && q2 == w / 65536 && q2 / 256 == w / 16777216;
  }

  lemma StoredByte(k: seq<Uint32>, i: nat, j: nat)
    requires i < |k| && j < 4
    ensures KeyByte(Stored(k), 4 * i + j) == ByteOf(k[i], j)
  {
    hide ByteOf;
    assert (4 * i + j) / 4 == i && (4 * i + j) % 4 == j;
  }

  lemma StoredWord(k: seq<Uint32>, i: nat)
    ensures WordAt(Stored(k), 4 * i) == KeyWord(k, i)
  {
    hide ByteOf;
    if i < |k| {
      StoredByte(k, i, 0);
      StoredByte(k, i, 1);
      StoredByte(k, i, 2);
      StoredByte(k, i, 3);
      FourBytes(k[i]);
    }
  }

  lemma {:induction false} SameBlocks(k: seq<Uint32>, s: State, n: nat)
    requires 3 * n <= |k|
    ensures AfterByteBlocks(Stored(k), s, n) == AfterBlocks(k, s, n)
  {
    hide Mix, AddBlock, WordAt, Stored;
    if n > 0 {
      SameBlocks(k, s, n - 1);
      StoredWord(k, 3 * n - 3);
      StoredWord(k, 3 * n - 2);
      StoredWord(k, 3 * n - 1);
    }
  }

  /** `hash_u32` of words is `hashlittle` of their bytes. */
  lemma WordsAsBytes(k: seq<Uint32>, initval: Uint32)
    ensures ByteHash(Stored(k), initval).0 == WordHash(k, initval).c
  {
    hide Mix, Final, AddBlock, WordAt, Stored, AfterBlocks, AfterByteBlocks;
    if |k| > 0 {
      var n := FullBlocks(|k|, 3);
      assert FullBlocks(4 * |k|, 12) == n;
      SameBlocks(k, Begin(4 * |k|, initval), n);
      StoredWord(k, 3 * n);
      StoredWord(k, 3 * n + 1);
      StoredWord(k, 3 * n + 2);
    }
  }
}
