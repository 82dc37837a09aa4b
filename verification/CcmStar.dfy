/** CCM* of os/lib/ccm-star.c against sections 2.2 and 2.3 of RFC 3610, with two-byte length
    fields. AES under the current key is an arbitrary function from blocks to blocks. */
module CcmStar {
  import opened Arithmetic

  type Octet = bv8
  type Block = s: seq<Octet> | |s| == 16 witness [0, 0, 0, 0, 0, 0, 0, 0, 0, 0, 0, 0, 0, 0, 0, 0]
  type Nonce = s: seq<Octet> | |s| == 13 witness [0, 0, 0, 0, 0, 0, 0, 0, 0, 0, 0, 0, 0]
  type Cipher = Block -> Block

  function XorByte(a: Octet, b: Octet): Octet {
    a ^ b
  }

  lemma XorTwice(a: Octet, b: Octet)
    ensures XorByte(XorByte(a, b), b) == a
  {
  }

  lemma XorZero(a: Octet)
    ensures XorByte(a, 0) == a && XorByte(0, a) == a
  {
  }

  function ByteOf(n: nat): Octet
    requires n < 256
  {
    n as Octet
  }

  lemma ZeroByte()
    ensures ByteOf(0) == 0
  {
  }

  // ---------------------------------------------------------------------------
  // RFC 3610

  /** A number in two bytes, most significant first. */
  function Length(n: nat): (s: seq<Octet>)
    requires n < 0x1_0000
    ensures |s| == 2
  {
    [ByteOf(n / 256), ByteOf(n % 256)]
  }

  /** Flags of block B_0 for tags of `size` bytes. */
  function Flags(hasData: bool, size: nat): (f: nat)
    requires 2 <= size <= 16
    ensures f < 128
  {
    (if hasData then 64 else 0) + 8 * ((size - 2) / 2) + 1
  }

  function Zeros(n: nat): (s: seq<Octet>)
    ensures |s| == n
  {
    seq(n, _ => 0)
  }

  /** The next multiple of 16. */
  function RoundUp(n: nat): (r: nat)
    ensures n <= r < n + 16 && r % 16 == 0
  {
    (n + 15) / 16 * 16
  }

  function Pad(s: seq<Octet>): (p: seq<Octet>)
    ensures |p| % 16 == 0
  {
    s + Zeros(RoundUp(|s|) - |s|)
  }

  /** Additional data as it is authenticated: nothing, or its length and itself. */
  function AuthData(a: seq<Octet>): seq<Octet>
    requires |a| < 0xFF00
  {
    if a == [] then [] else Length(|a|) + a
  }

  function Xor(x: Block, y: Block): Block {
    seq(16, i requires 0 <= i < 16 => XorByte(x[i], y[i]))
  }

  /** CBC-MAC with state `x` over whole blocks. */
  function Cbc(e: Cipher, x: Block, d: seq<Octet>): Block
    decreases |d|
  {
    if |d| < 16 then x else Cbc(e, e(Xor(x, d[..16])), d[16..])
  }

  /** The block that authentication begins with, for given flags. */
  function FirstBlock(flags: Octet, n: Nonce, m: nat): Block
    requires m < 0x1_0000
  {
    [flags] + n + Length(m)
  }

  /** The blocks B_0, B_1, ... of section 2.2, in one sequence. */
  function Formatted(flags: Octet, n: Nonce, m: seq<Octet>, a: seq<Octet>): seq<Octet>
    requires |m| < 0x1_0000 && |a| < 0xFF00
  {
    FirstBlock(flags, n, |m|) + Pad(AuthData(a)) + Pad(m)
  }

  /** Key stream block number `i` of section 2.3. */
  function KeyBlock(e: Cipher, n: Nonce, i: nat): Block
    requires i < 0x1_0000
  {
    e([1] + n + Length(i))
  }

  /** The message with the key stream from block 1 on added to it. */
  function Crypt(e: Cipher, n: Nonce, m: seq<Octet>): (c: seq<Octet>)
    requires |m| < 0x1_0000
    ensures |c| == |m|
  {
    seq(|m|, i requires 0 <= i < |m| => XorByte(m[i], KeyBlock(e, n, 1 + i / 16)[i % 16]))
  }

  /** The authentication value: CBC-MAC of the formatted blocks, encrypted with key stream
      block 0 and cut to `size` bytes. */
  function Tag(e: Cipher, flags: Octet, n: Nonce, m: seq<Octet>, a: seq<Octet>, size: nat): (t: seq<Octet>)
    requires |m| < 0x1_0000 && |a| < 0xFF00 && size <= 16
  {
    Xor(Cbc(e, Zeros(16), Formatted(flags, n, m, a)), KeyBlock(e, n, 0))[..size]
  }

  /** Encryption undoes itself. */
  lemma CryptTwice(e: Cipher, n: Nonce, m: seq<Octet>)
    requires |m| < 0x1_0000
    ensures Crypt(e, n, Crypt(e, n, m)) == m
  {
    var c := Crypt(e, n, m);
    hide XorByte, KeyBlock;
    forall i | 0 <= i < |m| ensures Crypt(e, n, c)[i] == m[i] {
      XorTwice(m[i], KeyBlock(e, n, 1 + i / 16)[i % 16]);
    }
  }

  // ---------------------------------------------------------------------------
  // Absorbing data that is not padded

  /** `x` with `d` added to its beginning. */
  function Add(x: Block, d: seq<Octet>): Block {
    seq(16, i requires 0 <= i < 16 => if i < |d| then XorByte(x[i], d[i]) else x[i])
  }

  function Absorb(e: Cipher, x: Block, d: seq<Octet>): Block
    decreases |d|
  {
    if d == [] then x
    else if |d| <= 16 then e(Add(x, d))
    else Absorb(e, e(Add(x, d[..16])), d[16..])
  }

  lemma AddIsXor(x: Block, d: seq<Octet>, z: nat)
    requires |d| + z == 16
    ensures Xor(x, d + Zeros(z)) == Add(x, d)
  {
    hide XorByte;
    forall i | 0 <= i < 16 ensures Xor(x, d + Zeros(z))[i] == Add(x, d)[i] {
      XorZero(x[i]);
    }
  }

  lemma RoundUpSmall(n: nat)
    requires 0 < n <= 16
    ensures RoundUp(n) == 16
  {
  }

  lemma RoundUpStep(n: nat)
    requires 16 < n
    ensures RoundUp(n) == 16 + RoundUp(n - 16)
  {
  }

  lemma PadSmall(d: seq<Octet>)
    requires 0 < |d| <= 16
    ensures Pad(d) == d + Zeros(16 - |d|) && |Pad(d)| == 16
  {
    RoundUpSmall(|d|);
  }

  lemma PadStep(d: seq<Octet>)
    requires 16 < |d|
    ensures |Pad(d)| > 16 && Pad(d)[..16] == d[..16] && Pad(d)[16..] == Pad(d[16..])
  {
    RoundUpStep(|d|);
    hide RoundUp;
    var z := RoundUp(|d|) - |d|;
    assert Pad(d) == d + Zeros(z);
    assert Pad(d[16..]) == d[16..] + Zeros(z);
  }

  /** Adding a short last block is the same as padding it with zeros. */
  lemma {:induction false} AbsorbIsCbc(e: Cipher, x: Block, d: seq<Octet>)
    ensures Absorb(e, x, d) == Cbc(e, x, Pad(d))
    decreases |d|
  {
    if d == [] {
      assert Pad(d) == [];
    } else if |d| <= 16 {
      PadSmall(d);
      AddIsXor(x, d, 16 - |d|);
      hide Pad, Xor, Add;
      var p := Pad(d);
      assert p[..16] == p && p[16..] == [];
    } else {
      PadStep(d);
      assert d[..16] + Zeros(0) == d[..16];
      AddIsXor(x, d[..16], 0);
      hide Pad, Xor, Add;
      AbsorbIsCbc(e, e(Add(x, d[..16])), d[16..]);
    }
  }

  lemma {:induction false} CbcAppend(e: Cipher, x: Block, d: seq<Octet>, f: seq<Octet>)
    requires |d| % 16 == 0
    ensures Cbc(e, x, d + f) == Cbc(e, Cbc(e, x, d), f)
    decreases |d|
  {
    hide Xor;
    if d == [] {
      assert d + f == f;
    } else {
      assert (d + f)[..16] == d[..16] && (d + f)[16..] == d[16..] + f;
      CbcAppend(e, e(Xor(x, d[..16])), d[16..], f);
    }
  }

  lemma XorFromZero(b: Block)
    ensures Xor(Zeros(16), b) == b
  {
    hide XorByte;
    forall i | 0 <= i < 16 ensures Xor(Zeros(16), b)[i] == b[i] {
      XorZero(b[i]);
    }
  }

  lemma CbcOne(e: Cipher, b: Block)
    ensures Cbc(e, Zeros(16), b) == e(b)
  {
    XorFromZero(b);
    hide Xor;
    assert b[..16] == b && b[16..] == [];
    assert Cbc(e, e(b), []) == e(b);
  }

  /** Encrypting the first block and absorbing additional data and message in turn computes
      the CBC-MAC of the formatted blocks. */
  lemma MacOfFormatted(e: Cipher, flags: Octet, n: Nonce, m: seq<Octet>, a: seq<Octet>)
    requires |m| < 0x1_0000 && |a| < 0xFF00
    ensures Absorb(e, Absorb(e, e(FirstBlock(flags, n, |m|)), AuthData(a)), m) ==
      Cbc(e, Zeros(16), Formatted(flags, n, m, a))
  {
    hide Cbc, Absorb, Pad, FirstBlock, AuthData, Xor, Zeros;
    var b, p, q := FirstBlock(flags, n, |m|), Pad(AuthData(a)), Pad(m);
    CbcOne(e, b);
    AbsorbIsCbc(e, e(b), AuthData(a));
    AbsorbIsCbc(e, Cbc(e, e(b), p), m);
    assert |b + p| % 16 == 0;
    CbcAppend(e, Zeros(16), b, p);
    CbcAppend(e, Zeros(16), b + p, q);
  }

  // ---------------------------------------------------------------------------
  // The implementation

  /** CCM_STAR_AUTH_FLAGS, in 32-bit unsigned arithmetic and then cut to a byte. */
  function AuthFlags(hasData: bool, size: nat): (f: nat)
    ensures f < 256
  {
    var shifted := ((size - 2) % 0x1_0000_0000) / 2 * 8 % 256;
    shifted + 1 + if hasData && shifted / 64 % 2 == 0 then 64 else 0
  }

  /** For every tag of two to sixteen bytes the flags are those of section 2.2. */
  lemma FlagsAgree(hasData: bool, size: nat)
    requires 2 <= size <= 16
    ensures AuthFlags(hasData, size) == Flags(hasData, size)
  {
    var half := (size - 2) / 2;
    assert (size - 2) % 0x1_0000_0000 == size - 2;
    assert half < 8;
    EighthBit(half);
  }

  lemma EighthBit(half: nat)
    requires half < 8
    ensures half * 8 % 256 == 8 * half && 8 * half / 64 % 2 == 0
  {
  }

  /** Without a tag the size wraps around and the mark is set regardless. */
  lemma FlagsWithoutTag(hasData: bool)
    ensures AuthFlags(hasData, 0) == 0xF9
  {
  }

  /** Value of an 8-bit loop position after `k` steps of 16. */
  function Position(start: nat, k: nat): (p: nat)
    requires start < 256
    ensures p < 256
  {
    if k == 0 then start else (Position(start, k - 1) + 16) % 256
  }

  lemma {:induction false} PositionClass(start: nat, k: nat)
    requires start < 16
    ensures Position(start, k) % 16 == start && Position(start, k) <= 240 + start
  {
    if k > 0 {
      PositionClass(start, k - 1);
      NextClass(start, Position(start, k - 1));
    }
  }

  lemma NextClass(start: nat, p: nat)
    requires start < 16 && p % 16 == start && p <= 240 + start
    ensures (p + 16) % 256 % 16 == start && (p + 16) % 256 <= 240 + start
  {
    var q := p / 16;
    assert p == 16 * q + start && q <= 15;
    if q < 15 {
      SmallMod(p + 16, 256);
      RestOf(q + 1, start);
    } else {
      assert (240 + start + 16) % 256 == start;
      SmallMod(start, 16);
    }
  }

  lemma RestOf(q: nat, start: nat)
    requires start < 16
    ensures (16 * q + start) % 16 == start
  {
  }

  lemma {:induction false} PositionEarly(start: nat, k: nat)
    requires start < 16 && k <= 15
    ensures Position(start, k) == start + 16 * k
  {
    if k > 0 {
      PositionEarly(start, k - 1);
    }
  }

  /** The loops over message and additional data come to an end exactly up to these
      lengths; beyond them the position wraps around before it reaches the length. */
  lemma LoopEndsIff(start: nat, len: nat)
    requires start < 16
    ensures (exists k :: Position(start, k) >= len) <==> len <= 240 + start
  {
    if len <= 240 + start {
      PositionEarly(start, 15);
    } else {
      forall k: nat ensures Position(start, k) < len {
        PositionClass(start, k);
      }
    }
  }

  /** set_iv */
  method SetIv(iv: array<Octet>, flags: Octet, n: Nonce, counter: nat)
    requires iv.Length == 16 && counter < 256
    modifies iv
    ensures iv[..] == [flags] + n + Length(counter)
  {
    iv[0] := flags;
    for i := 0 to 13
      invariant iv[0] == flags && forall j :: 0 <= j < i ==> iv[1 + j] == n[j]
    {
      iv[1 + i] := n[i];
    }
    iv[14] := 0;
    iv[15] := ByteOf(counter);
    ZeroByte();
    hide ByteOf;
    var r := [flags] + n + Length(counter);
    assert forall i :: 0 <= i < 16 ==> iv[i] == r[i];
  }

  /** AES_128.encrypt */
  method Encrypt(e: Cipher, x: array<Octet>)
    requires x.Length == 16
    modifies x
    ensures x[..] == e(old(x[..]))
  {
    var r := e(x[..]);
    for i := 0 to 16
      invariant forall j :: 0 <= j < i ==> x[j] == r[j]
    {
      x[i] := r[i];
    }
  }

  /** `s` with a key block added from position `pos` on. */
  function AddAt(s: seq<Octet>, pos: nat, k: Block): (r: seq<Octet>)
    ensures |r| == |s|
  {
    seq(|s|, i requires 0 <= i < |s| => if pos <= i < pos + 16 then XorByte(s[i], k[i - pos]) else s[i])
  }

  /** ctr_step */
  method CtrStep(e: Cipher, n: Nonce, pos: nat, m: array<Octet>, counter: nat)
    requires counter < 256
    modifies m
    ensures m[..] == AddAt(old(m[..]), pos, KeyBlock(e, n, counter))
  {
    hide XorByte, Length;
    var a := new Octet[16];
    SetIv(a, 1, n, counter);
    Encrypt(e, a);
    ghost var k := KeyBlock(e, n, counter);
    var i := 0;
    while pos + i < m.Length && i < 16
      invariant 0 <= i <= 16 && a[..] == k
      invariant forall j :: 0 <= j < m.Length ==>
        m[j] == if pos <= j < pos + i then XorByte(old(m[j]), k[j - pos]) else old(m[j])
    {
      m[pos + i] := XorByte(m[pos + i], a[i]);
      i := i + 1;
    }
  }

  /** The loops of mic that add up to 16 bytes of `d` to `x`, and the encryption after. */
  method AddBlock(e: Cipher, x: array<Octet>, d: array<Octet>, pos: nat)
    requires x.Length == 16 && x != d && pos < d.Length
    modifies x
    ensures x[..] == e(Add(old(x[..]), if pos + 16 <= d.Length then d[pos..pos + 16] else d[pos..]))
  {
    hide XorByte;
    ghost var c := if pos + 16 <= d.Length then d[pos..pos + 16] else d[pos..];
    var i := 0;
    while pos + i < d.Length && i < 16
      invariant 0 <= i <= |c|
      invariant forall j :: 0 <= j < 16 ==> x[j] == if j < i then XorByte(old(x[j]), c[j]) else old(x[j])
    {
      x[i] := XorByte(x[i], d[pos + i]);
      i := i + 1;
    }
    assert x[..] == Add(old(x[..]), c);
    Encrypt(e, x);
  }

  lemma NextChunk(e: Cipher, x: Block, d: seq<Octet>, pos: nat)
    requires pos < |d|
    ensures var c := if pos + 16 <= |d| then d[pos..pos + 16] else d[pos..];
      Absorb(e, x, d[pos..]) == Absorb(e, e(Add(x, c)), if pos + 16 <= |d| then d[pos + 16..] else [])
  {
    hide Add;
    var s := d[pos..];
    if pos + 16 <= |d| {
      assert s[..16] == d[pos..pos + 16] && s[16..] == d[pos + 16..];
      if |s| == 16 {
        assert s[..16] == s && s[16..] == [];
      }
    }
  }

  /** The loops of mic over the rest of `d` from `start` on, with an 8-bit position. */
  method AbsorbRest(e: Cipher, x: array<Octet>, d: array<Octet>, start: nat)
    requires x.Length == 16 && x != d && start < 16 && d.Length <= 240 + start
    modifies x
    ensures x[..] == Absorb(e, old(x[..]), if start <= d.Length then d[start..] else [])
  {
    hide Absorb, Add;
    ghost var s := d[..];
    var pos := start;
    while pos < d.Length
      invariant d[..] == s && pos % 16 == start && pos <= 240 + start
      invariant Absorb(e, old(x[..]), if start <= |s| then s[start..] else []) ==
        Absorb(e, x[..], if pos <= |s| then s[pos..] else [])
      decreases 256 - pos
    {
      NextChunk(e, x[..], s, pos);
      assert s[pos..] == d[pos..];
      AddBlock(e, x, d, pos);
      pos := (pos + 16) % 256;
    }
    AbsorbNothing(e, x[..]);
    assert pos <= |s| ==> s[pos..] == [];
    assert start <= |s| ==> s[start..] == d[start..];
  }

  lemma AbsorbNothing(e: Cipher, x: Block)
    ensures Absorb(e, x, []) == x
  {
  }

  /** The part of mic that authenticates the additional data. */
  method AbsorbData(e: Cipher, x: array<Octet>, a: array<Octet>)
    requires x.Length == 16 && x != a && 0 < a.Length <= 254
    modifies x
    ensures x[..] == Absorb(e, old(x[..]), AuthData(a[..]))
  {
    hide XorByte, Absorb, ByteOf;
    ghost var d := AuthData(a[..]);
    ghost var c := if |d| <= 16 then d else d[..16];
    FirstBytes(a[..]);
    x[1] := XorByte(x[1], ByteOf(a.Length));
    var i := 2;
    XorZero(x[0]);
    while i - 2 < a.Length && i < 16
      invariant 2 <= i <= |c| && |c| <= 16
      invariant forall j :: 0 <= j < 16 ==> x[j] == if j < i then XorByte(old(x[j]), c[j]) else old(x[j])
    {
      x[i] := XorByte(x[i], a[i - 2]);
      i := i + 1;
    }
    assert x[..] == Add(old(x[..]), c);
    hide Add;
    Encrypt(e, x);
    DataSplit(e, old(x[..]), a[..]);
    AbsorbRest(e, x, a, 14);
  }

  lemma FirstBytes(a: seq<Octet>)
    requires 0 < |a| <= 254
    ensures var d := AuthData(a);
      |d| == |a| + 2 && d[0] == 0 && d[1] == ByteOf(|a|) && d[2..] == a
  {
    ZeroByte();
  }

  lemma DataSplit(e: Cipher, x: Block, a: seq<Octet>)
    requires 0 < |a| <= 254
    ensures var d := AuthData(a);
      Absorb(e, x, d) == Absorb(e, e(Add(x, if |d| <= 16 then d else d[..16])), if 14 <= |a| then a[14..] else [])
  {
    FirstBytes(a);
    hide Add, AuthData;
    var d := AuthData(a);
    if |d| > 16 {
      assert d[16..] == a[14..];
    }
  }

  /** mic */
  method Mic(e: Cipher, n: Nonce, m: array<Octet>, a: array<Octet>, size: nat) returns (t: seq<Octet>)
    requires m.Length <= 240 && a.Length <= 254 && size <= 16
    ensures t == Tag(e, ByteOf(AuthFlags(a.Length > 0, size)), n, m[..], a[..], size)
  {
    hide XorByte, Absorb, ByteOf, AuthFlags, Cbc, KeyBlock, Length, Formatted, AuthData;
    var x := new Octet[16];
    var flags := ByteOf(AuthFlags(a.Length > 0, size));
    SetIv(x, flags, n, m.Length);
    Encrypt(e, x);
    ghost var b := x[..];
    AbsorbNothing(e, b);
    if a.Length > 0 {
      AbsorbData(e, x, a);
    } else {
      NoData(a[..]);
    }
    AbsorbNothing(e, x[..]);
    if m.Length > 0 {
      AbsorbRest(e, x, m, 0);
    }
    assert m[0..] == m[..];
    MacOfFormatted(e, flags, n, m[..], a[..]);
    ghost var mac := x[..];
    CtrStep(e, n, 0, x, 0);
    assert x[..] == Xor(mac, KeyBlock(e, n, 0));
    t := x[..size];
    assert x[..][..size] == x[..size];
  }

  lemma NoData(a: seq<Octet>)
    requires a == []
    ensures AuthData(a) == []
  {
  }

  /** ctr */
  method Ctr(e: Cipher, n: Nonce, m: array<Octet>)
    requires m.Length <= 240
    modifies m
    ensures m[..] == Crypt(e, n, old(m[..]))
  {
    hide XorByte, KeyBlock;
    ghost var s := m[..];
    var pos := 0;
    var counter := 1;
    while pos < m.Length
      invariant 0 <= pos <= 240 && pos == 16 * (counter - 1)
      invariant forall i :: 0 <= i < m.Length ==> m[i] == if i < pos then Crypt(e, n, s)[i] else s[i]
    {
      ghost var s' := m[..];
      CtrStep(e, n, pos, m, counter);
      forall i | 0 <= i < m.Length ensures m[i] == if i < pos + 16 then Crypt(e, n, s)[i] else s[i] {
        assert m[i] == AddAt(s', pos, KeyBlock(e, n, counter))[i];
        if pos <= i < pos + 16 {
          InBlock(i, counter);
        }
      }
      counter := counter + 1;
      pos := (pos + 16) % 256;
    }
  }

  lemma InBlock(i: nat, counter: nat)
    requires 0 < counter && 16 * (counter - 1) <= i < 16 * counter
    ensures i / 16 == counter - 1 && i % 16 == i - 16 * (counter - 1)
  {
  }

  /** aead: in place on the message, forward to encrypt and backward to decrypt. */
  method Aead(e: Cipher, n: Nonce, m: array<Octet>, a: array<Octet>, size: nat, forward: bool)
    returns (t: seq<Octet>)
    requires m != a && m.Length <= 240 && a.Length <= 254 && size <= 16
    modifies m
    ensures m[..] == Crypt(e, n, old(m[..]))
    ensures t == Tag(e, ByteOf(AuthFlags(a.Length > 0, size)), n, if forward then old(m[..]) else m[..], a[..], size)
    ensures 2 <= size ==>
      t == Tag(e, ByteOf(Flags(a.Length > 0, size)), n, if forward then old(m[..]) else m[..], a[..], size)
  {
    hide Tag, Crypt, ByteOf, AuthFlags, Flags;
    if 2 <= size {
      FlagsAgree(a.Length > 0, size);
    }
    if !forward {
      Ctr(e, n, m);
    }
    t := Mic(e, n, m, a, size);
    if forward {
      Ctr(e, n, m);
    }
  }

  /** Going forward and then backward restores the message and gives the same tag. */
  method ThereAndBack(e: Cipher, n: Nonce, m: array<Octet>, a: array<Octet>, size: nat)
    returns (t: seq<Octet>, u: seq<Octet>)
    requires m != a && m.Length <= 240 && a.Length <= 254 && size <= 16
    modifies m
    ensures m[..] == old(m[..]) && t == u
  {
    hide Tag, Crypt, ByteOf, AuthFlags;
    t := Aead(e, n, m, a, size, true);
    u := Aead(e, n, m, a, size, false);
    CryptTwice(e, n, old(m[..]));
  }
}
