// WebSocket frames (RFC 6455, sections 5.2 and 5.3): reading one frame from a
// stream, writing one, and masking.
module WsFrame {
  import opened Common
  import opened BigEndian

  type Key = k: bytes | |k| == 4 witness [0, 0, 0, 0]

  // A frame with its payload unmasked. The key of an unmasked frame is zero.
  datatype Frame = Frame(fin: bool, opcode: byte, masked: bool, key: Key, payload: bytes)

  const OP_CONTINUATION: byte := 0
  const OP_TEXT: byte := 1
  const OP_BINARY: byte := 2
  const OP_CLOSE: byte := 8

  const NO_KEY: Key := [0, 0, 0, 0]

  // Reading fails when the stream ends inside the frame; a length of 2^63 or
  // more turns negative and cannot be allocated.
  datatype ReadFailure = Short | NegativeLength

  predicate IsData(opcode: byte) {
    opcode == OP_CONTINUATION || opcode == OP_TEXT || opcode == OP_BINARY
  }

  // ---------- masking ----------

  function Pow2(bits: nat): nat {
    if bits == 0 then 1 else 2 * Pow2(bits - 1)
  }

  // Exclusive or of the low `bits` bits.
  function XorBits(a: nat, b: nat, bits: nat): (r: nat)
    ensures r < Pow2(bits)
  {
    if bits == 0 then 0 else (a + b) % 2 + 2 * XorBits(a / 2, b / 2, bits - 1)
  }

  lemma {:induction false} XorBitsTwice(a: nat, b: nat, bits: nat)
    requires a < Pow2(bits)
    ensures XorBits(XorBits(a, b, bits), b, bits) == a
  {
    if bits == 0 {
    } else {
      var x := XorBits(a / 2, b / 2, bits - 1);
      XorBitsTwice(a / 2, b / 2, bits - 1);
      var y := XorBits(a, b, bits);
      LowestBit((a + b) % 2, x);
      assert y == (a + b) % 2 + 2 * x;
      assert XorBits(y, b, bits) == (y + b) % 2 + 2 * XorBits(x, b / 2, bits - 1);
      SameParity(a, b, y);
    }
  }

  lemma LowestBit(bit: nat, x: nat)
    requires bit < 2
    ensures (bit + 2 * x) / 2 == x && (bit + 2 * x) % 2 == bit
  {
  }

  lemma SameParity(a: nat, b: nat, y: nat)
    requires y % 2 == (a + b) % 2
    ensures (y + b) % 2 == a % 2
  {
  }

  lemma EightBits()
    ensures Pow2(8) == 256
  {
    assert Pow2(4) == 16;
    assert Pow2(6) == 64;
  }

  function Xor(a: byte, b: byte): byte {
    EightBits();
    XorBits(a, b, 8)
  }

  lemma XorTwice(a: byte, b: byte)
    ensures Xor(Xor(a, b), b) == a
  {
    EightBits();
    XorBitsTwice(a, b, 8);
  }

  function Mask(p: bytes, key: Key): (m: bytes)
    ensures |m| == |p|
  {
    seq(|p|, i requires 0 <= i < |p| => Xor(p[i], key[i % 4]))
  }

  // Masking is its own inverse.
  lemma MaskTwice(p: bytes, key: Key)
    ensures Mask(Mask(p, key), key) == p
  {
    forall i | 0 <= i < |p| ensures Mask(Mask(p, key), key)[i] == p[i] {
      XorTwice(p[i], key[i % 4]);
    }
  }

  // The k-th binary digit, counted from the lowest.
  predicate Bit(x: nat, k: nat) {
    if k == 0 then x % 2 == 1 else Bit(x / 2, k - 1)
  }

  // Each byte of a masked payload differs from the original in exactly the bits
  // of one byte of the key, the key's four bytes taking turns.
  ghost predicate MaskedBy(p: bytes, key: Key, m: bytes) {
    |m| == |p| && forall i, k :: 0 <= i < |p| && 0 <= k < 8 ==> (Bit(m[i], k) <==> Bit(p[i], k) != Bit(key[i % 4], k))
  }

  lemma MaskIsMaskedBy(p: bytes, key: Key)
    ensures MaskedBy(p, key, Mask(p, key))
  {
    forall i, k | 0 <= i < |p| && 0 <= k < 8
      ensures Bit(Mask(p, key)[i], k) <==> Bit(p[i], k) != Bit(key[i % 4], k)
    {
      XorBit(p[i], key[i % 4], k);
    }
  }

  lemma XorBit(a: byte, b: byte, k: nat)
    requires k < 8
    ensures Bit(Xor(a, b), k) <==> Bit(a, k) != Bit(b, k)
  {
    hide Bit;
    XorBitsAt(a, b, 8, k);
  }

  lemma {:induction false} XorBitsAt(a: nat, b: nat, bits: nat, k: nat)
    requires k < bits
    ensures Bit(XorBits(a, b, bits), k) <==> Bit(a, k) != Bit(b, k)
  {
    var x := XorBits(a / 2, b / 2, bits - 1);
    LowestBit((a + b) % 2, x);
    Parity(a, b);
    assert XorBits(a, b, bits) == (a + b) % 2 + 2 * x;
    hide XorBits;
    if k > 0 {
      XorBitsAt(a / 2, b / 2, bits - 1, k - 1);
    }
  }

  lemma Parity(a: nat, b: nat)
    ensures (a + b) % 2 == 1 <==> (a % 2 == 1) != (b % 2 == 1)
  {
  }

  method WsMask(p: array<byte>, key: Key)
    modifies p
    ensures p[..] == Mask(old(p[..]), key)
    ensures MaskedBy(old(p[..]), key, p[..])
  {
    MaskIsMaskedBy(p[..], key);
    for i := 0 to p.Length
      invariant forall j :: 0 <= j < i ==> p[j] == Xor(old(p[j]), key[j % 4])
      invariant forall j :: i <= j < p.Length ==> p[j] == old(p[j])
    {
      p[i] := Xor(p[i], key[i % 4]);
    }
  }

  // ---------- the wire form ----------

  // The byte with its top bit set.
  function Top(b: byte): byte {
    if b >= 128 then b else b + 128
  }

  function Lead(masked: bool, n: nat): byte
    requires n < 128
  {
    if masked then n + 128 else n
  }

  function LengthBytes(masked: bool, n: nat): bytes {
    if n < 126 then [Lead(masked, n)]
    else if n < 65536 then [Lead(masked, 126)] + Put(n, 2)
    else [Lead(masked, 127)] + Put(n, 8)
  }

  ghost predicate WellFormed(f: Frame) {
    && (!f.masked ==> f.key == NO_KEY)
    && f.opcode < 16
    && |f.payload| <= MAX_INT64
  }

  // What the bytes before the key and payload say.
  datatype Head = Head(fin: bool, opcode: byte, masked: bool, length: nat)

  function HeadOf(f: Frame): Head {
    Head(f.fin, f.opcode, f.masked, |f.payload|)
  }

  function EncodeHead(h: Head): (b: bytes)
    ensures |b| >= 2
  {
    [if h.fin then Top(h.opcode) else h.opcode] + LengthBytes(h.masked, h.length)
  }

  function EncodeBody(f: Frame): bytes {
    if f.masked then f.key + Mask(f.payload, f.key) else f.payload
  }

  function Encode(f: Frame): bytes {
    EncodeHead(HeadOf(f)) + EncodeBody(f)
  }

  // Where the length field ends.
  function LengthEnd(b: bytes): nat
    requires |b| >= 2
  {
    if b[1] % 128 == 126 then 4 else if b[1] % 128 == 127 then 10 else 2
  }

  function DecodeHead(b: bytes): Result<(Head, bytes), ReadFailure> {
    if |b| < 2 || |b| < LengthEnd(b) then Err(Short)
    else
      var end := LengthEnd(b);
      Ok((Head(b[0] >= 128, b[0] % 16, b[1] >= 128, if end == 2 then b[1] % 128 else Get(b[2..end])), b[end..]))
  }

  function DecodeBody(h: Head, b: bytes): Result<(Frame, bytes), ReadFailure> {
    var start := if h.masked then 4 else 0;
    if |b| < start then Err(Short)
    else if h.length > MAX_INT64 then Err(NegativeLength)
    else if |b| < start + h.length then Err(Short)
    else
      var key: Key := if h.masked then b[..4] else NO_KEY;
      var payload := b[start..start + h.length];
      Ok((Frame(h.fin, h.opcode, h.masked, key,
        if h.masked then Mask(payload, key) else payload), b[start + h.length..]))
  }

  // The first frame of a stream, and what follows it.
  function Decode(b: bytes): Result<(Frame, bytes), ReadFailure> {
    match DecodeHead(b)
    case Err(e) => Err(e)
    case Ok((h, rest)) => DecodeBody(h, rest)
  }

  lemma HeadReadsBack(h: Head, more: bytes)
    requires h.opcode < 16 && h.length <= MAX_INT64
    ensures DecodeHead(EncodeHead(h) + more) == Ok((h, more))
  {
    var first, n := if h.fin then Top(h.opcode) else h.opcode, h.length;
    var lead := Lead(h.masked, if n < 126 then n else if n < 65536 then 126 else 127);
    var length := if n < 126 then [] else if n < 65536 then Put(n, 2) else Put(n, 8);
    Limits();
    FirstByte(h.fin, h.opcode);
    LeadByte(h.masked, if n < 126 then n else if n < 65536 then 126 else 127);
    assert EncodeHead(h) == [first] + [lead] + length;
    if n >= 126 {
      GetPut(n, if n < 65536 then 2 else 8);
    }
    hide Top, Lead, DecodeHead, EncodeHead;
    HeadDecodes(first, lead, length, more);
  }

  lemma HeadDecodes(first: byte, lead: byte, length: bytes, more: bytes)
    requires |length| == if lead % 128 < 126 then 0 else if lead % 128 == 126 then 2 else 8
    ensures DecodeHead([first] + [lead] + length + more) ==
      Ok((Head(first >= 128, first % 16, lead >= 128, if length == [] then lead % 128 else Get(length)), more))
  {
    hide Get;
    HeadBytes(first, lead, length, more);
  }

  lemma FirstByte(fin: bool, opcode: byte)
    requires opcode < 16
    ensures var first := if fin then Top(opcode) else opcode; (first >= 128 <==> fin) && first % 16 == opcode
  {
  }

  lemma LeadByte(masked: bool, n: nat)
    requires n < 128
    ensures (Lead(masked, n) >= 128 <==> masked) && Lead(masked, n) % 128 == n
  {
  }

  lemma HeadBytes(first: byte, lead: byte, length: bytes, more: bytes)
    ensures var b := [first] + [lead] + length + more;
      b[0] == first && b[1] == lead && b[2..2 + |length|] == length && b[2 + |length|..] == more
  {
  }

  lemma BodyReadsBack(f: Frame, more: bytes)
    requires WellFormed(f)
    ensures DecodeBody(HeadOf(f), EncodeBody(f) + more) == Ok((f, more))
  {
    var b, n := EncodeBody(f) + more, |f.payload|;
    MaskTwice(f.payload, f.key);
    if f.masked {
      assert b[..4] == f.key;
      assert b[4..4 + n] == Mask(f.payload, f.key);
      assert b[4 + n..] == more;
    } else {
      assert b[0..n] == f.payload;
      assert b[n..] == more;
    }
  }

  // Reading back a written frame gives the frame and leaves exactly what
  // followed it, in all three length forms, masked or not.
  lemma DecodeEncoded(f: Frame, more: bytes)
    requires WellFormed(f)
    ensures Decode(Encode(f) + more) == Ok((f, more))
  {
    assert Encode(f) + more == EncodeHead(HeadOf(f)) + (EncodeBody(f) + more);
    HeadReadsBack(HeadOf(f), EncodeBody(f) + more);
    BodyReadsBack(f, more);
  }

  // No reserved bit set, and the length in its shortest form.
  predicate Canonical(b: bytes)
    requires DecodeHead(b).Ok?
  {
    var n := DecodeHead(b).value.0.length;
    && b[0] % 128 < 16
    && (LengthEnd(b) == 4 ==> n >= 126)
    && (LengthEnd(b) == 10 ==> n >= 65536)
  }

  lemma HeadWritesBackIff(b: bytes)
    requires DecodeHead(b).Ok?
    ensures EncodeHead(DecodeHead(b).value.0) + DecodeHead(b).value.1 == b <==> Canonical(b)
  {
    var (h, rest) := DecodeHead(b).value;
    var end := LengthEnd(b);
    var head := EncodeHead(h);
    HeadSameIff(b);
    assert b == b[..end] + rest;
    hide EncodeHead, DecodeHead, Canonical, LengthEnd;
    if head + rest == b {
      assert |head| == end;
      assert head == b[..end];
    }
  }

  lemma HeadSameIff(b: bytes)
    requires DecodeHead(b).Ok?
    ensures EncodeHead(DecodeHead(b).value.0) == b[..LengthEnd(b)] <==> Canonical(b)
  {
    var h, end := DecodeHead(b).value.0, LengthEnd(b);
    LengthSameIff(b);
    assert b[..end] == [b[0]] + b[1..end];
    hide LengthBytes, Get;
    var first := if h.fin then Top(h.opcode) else h.opcode;
    assert first == b[0] <==> b[0] % 128 < 16;
    assert EncodeHead(h) == [first] + LengthBytes(h.masked, h.length);
    assert EncodeHead(h)[0] == first && EncodeHead(h)[1..] == LengthBytes(h.masked, h.length);
    assert b[..end][0] == b[0] && b[..end][1..] == b[1..end];
  }

  lemma LengthSameIff(b: bytes)
    requires DecodeHead(b).Ok?
    ensures var (h, end) := (DecodeHead(b).value.0, LengthEnd(b));
      LengthBytes(h.masked, h.length) == b[1..end] <==>
        (end == 4 ==> h.length >= 126) && (end == 10 ==> h.length >= 65536)
  {
    var h, end := DecodeHead(b).value.0, LengthEnd(b);
    Limits();
    PutGet(b[2..end]);
    assert b[1..end] == [b[1]] + b[2..end];
    assert |b[1..end]| == end - 1;
  }

  lemma BodyWritesBack(h: Head, b: bytes)
    requires DecodeBody(h, b).Ok?
    ensures HeadOf(DecodeBody(h, b).value.0) == h
    ensures EncodeBody(DecodeBody(h, b).value.0) + DecodeBody(h, b).value.1 == b
  {
    var start := if h.masked then 4 else 0;
    var payload := b[start..start + h.length];
    MaskTwice(payload, DecodeBody(h, b).value.0.key);
    hide Mask;
    assert b == b[..start] + payload + b[start + h.length..];
  }

  // Conversely, a read frame written again is byte for byte what was read,
  // exactly when the original was canonical.
  lemma EncodeDecodedIff(b: bytes)
    requires Decode(b).Ok?
    ensures WellFormed(Decode(b).value.0)
    ensures Encode(Decode(b).value.0) + Decode(b).value.1 == b <==> Canonical(b)
  {
    var (h, rest) := DecodeHead(b).value;
    var (f, more) := Decode(b).value;
    HeadWritesBackIff(b);
    BodyWritesBack(h, rest);
    assert Encode(f) + more == EncodeHead(h) + (EncodeBody(f) + more);
  }

  // ---------- the layout ----------

  // RFC 6455 section 5.2, byte for byte: b begins with the frame f, and `more`
  // follows it. `start` is where the payload begins.
  ghost predicate LaidOut(b: bytes, f: Frame, more: bytes) {
    |b| >= 2 &&
    var code := b[1] % 128;
    var end := if code == 126 then 4 else if code == 127 then 10 else 2;
    var start := end + if b[1] >= 128 then 4 else 0;
    && |b| == start + |f.payload| + |more|
    && f.fin == (b[0] >= 128) && f.opcode == b[0] % 16 && f.masked == (b[1] >= 128)
    && |f.payload| == (if end == 2 then code else Get(b[2..end]))
    && f.key == (if f.masked then b[end..start] else [0, 0, 0, 0])
    && (if f.masked then MaskedBy(b[start..start + |f.payload|], f.key, f.payload)
        else f.payload == b[start..start + |f.payload|])
    && more == b[start + |f.payload|..]
  }

  // Whatever is read is laid out so...
  lemma DecodedIsLaidOut(b: bytes)
    requires Decode(b).Ok?
    ensures LaidOut(b, Decode(b).value.0, Decode(b).value.1)
  {
    var (h, rest) := DecodeHead(b).value;
    BodyIsLaidOut(h, rest);
    var start := LengthEnd(b) + if h.masked then 4 else 0;
    Slices(b, LengthEnd(b), start, h.length);
    hide Get, MaskedBy, Mask, DecodeBody;
  }

  lemma Slices(b: bytes, end: nat, start: nat, n: nat)
    requires end <= start && start + n <= |b|
    ensures b[end..][..start - end] == b[end..start]
    ensures b[end..][start - end..start - end + n] == b[start..start + n]
    ensures b[end..][start - end + n..] == b[start + n..]
  {
  }

  lemma BodyIsLaidOut(h: Head, b: bytes)
    requires DecodeBody(h, b).Ok?
    ensures var (f, more) := DecodeBody(h, b).value;
      var start := if h.masked then 4 else 0;
      && HeadOf(f) == h && |b| == start + h.length + |more| && more == b[start + h.length..]
      && f.key == (if h.masked then b[..4] else [0, 0, 0, 0])
      && if h.masked then MaskedBy(b[start..start + h.length], f.key, f.payload)
         else f.payload == b[start..start + h.length]
  {
    hide MaskedBy;
    if h.masked {
      MaskIsMaskedBy(b[4..4 + h.length], b[..4]);
    }
    hide Mask;
  }

  // ... and so is whatever is written.
  lemma EncodedIsLaidOut(f: Frame, more: bytes)
    requires WellFormed(f)
    ensures LaidOut(Encode(f) + more, f, more)
  {
    DecodeEncoded(f, more);
    hide Decode, Encode, WellFormed, LaidOut;
    DecodedIsLaidOut(Encode(f) + more);
  }

  // The masked text frame "Hello" of RFC 6455 section 5.7.
  lemma HelloFrame()
    ensures Decode([0x81, 0x85, 0x37, 0xfa, 0x21, 0x3d, 0x7f, 0x9f, 0x4d, 0x51, 0x58]) ==
      Ok((Frame(true, 1, true, [0x37, 0xfa, 0x21, 0x3d], [0x48, 0x65, 0x6c, 0x6c, 0x6f]), []))
  {
    var b: bytes := [0x81, 0x85, 0x37, 0xfa, 0x21, 0x3d, 0x7f, 0x9f, 0x4d, 0x51, 0x58];
    var rest: bytes := [0x37, 0xfa, 0x21, 0x3d, 0x7f, 0x9f, 0x4d, 0x51, 0x58];
    assert b[2..] == rest;
    assert DecodeHead(b) == Ok((Head(true, 1, true, 5), rest));
    hide DecodeHead;
    HelloBody(rest);
  }

  lemma HelloBody(b: bytes)
    requires b == [0x37, 0xfa, 0x21, 0x3d, 0x7f, 0x9f, 0x4d, 0x51, 0x58]
    ensures DecodeBody(Head(true, 1, true, 5), b) ==
      Ok((Frame(true, 1, true, [0x37, 0xfa, 0x21, 0x3d], [0x48, 0x65, 0x6c, 0x6c, 0x6f]), []))
  {
    HelloMasked();
    assert b[..4] == [0x37, 0xfa, 0x21, 0x3d] && b[4..9] == [0x7f, 0x9f, 0x4d, 0x51, 0x58] && b[9..] == [];
    hide Mask;
  }

  lemma HelloMasked()
    ensures Mask([0x7f, 0x9f, 0x4d, 0x51, 0x58], [0x37, 0xfa, 0x21, 0x3d]) == [0x48, 0x65, 0x6c, 0x6c, 0x6f]
  {
    HelloH();
    HelloE();
    HelloFirstL();
    HelloSecondL();
    HelloO();
    hide Xor;
  }

  lemma HelloH()
    ensures Xor(0x7f, 0x37) == 0x48
  {
    assert XorBits(1, 0, 2) == 1 && XorBits(3, 1, 3) == 2 && XorBits(7, 3, 4) == 4;
    assert XorBits(15, 6, 5) == 9 && XorBits(31, 13, 6) == 18 && XorBits(63, 27, 7) == 36;
  }

  lemma HelloE()
    ensures Xor(0x9f, 0xfa) == 0x65
  {
    assert XorBits(2, 3, 2) == 1 && XorBits(4, 7, 3) == 3 && XorBits(9, 15, 4) == 6;
    assert XorBits(19, 31, 5) == 12 && XorBits(39, 62, 6) == 25 && XorBits(79, 125, 7) == 50;
  }

  lemma HelloFirstL()
    ensures Xor(0x4d, 0x21) == 0x6c
  {
    assert XorBits(1, 0, 2) == 1 && XorBits(2, 1, 3) == 3 && XorBits(4, 2, 4) == 6;
    assert XorBits(9, 4, 5) == 13 && XorBits(19, 8, 6) == 27 && XorBits(38, 16, 7) == 54;
  }

  lemma HelloSecondL()
    ensures Xor(0x51, 0x3d) == 0x6c
  {
    assert XorBits(1, 0, 2) == 1 && XorBits(2, 1, 3) == 3 && XorBits(5, 3, 4) == 6;
    assert XorBits(10, 7, 5) == 13 && XorBits(20, 15, 6) == 27 && XorBits(40, 30, 7) == 54;
  }

  lemma HelloO()
    ensures Xor(0x58, 0x37) == 0x6f
  {
    assert XorBits(1, 0, 2) == 1 && XorBits(2, 1, 3) == 3 && XorBits(5, 3, 4) == 6;
    assert XorBits(11, 6, 5) == 13 && XorBits(22, 13, 6) == 27 && XorBits(44, 27, 7) == 55;
  }

  // The opcodes whose frames are data: continuation, text and binary; a ping, a
  // pong and the close frame, opcode 8, are not.
  lemma DataOpcodes(opcode: byte)
    ensures IsData(opcode) <==> opcode in {0, 1, 2}
    ensures OP_CLOSE == 8
  {
  }

  // ---------- many frames ----------

  function EncodeAll(fs: seq<Frame>): bytes {
    if fs == [] then [] else EncodeAll(fs[..|fs| - 1]) + Encode(fs[|fs| - 1])
  }

  lemma DecodeShrinks(b: bytes)
    requires Decode(b).Ok?
    ensures |Decode(b).value.1| < |b|
  {
  }

  // Repeated reading until the stream yields no further frame.
  function DecodeAll(b: bytes): seq<Frame>
    decreases |b|
  {
    match Decode(b)
    case Err(_) => []
    case Ok((f, more)) => DecodeShrinks(b); [f] + DecodeAll(more)
  }

  lemma DecodeAllStep(f: Frame, more: bytes)
    requires WellFormed(f)
    ensures DecodeAll(Encode(f) + more) == [f] + DecodeAll(more)
  {
    DecodeEncoded(f, more);
    hide Decode, Encode, WellFormed;
  }

  lemma {:induction false} DecodeAllEncoded(fs: seq<Frame>, more: bytes)
    requires forall i :: 0 <= i < |fs| ==> WellFormed(fs[i])
    ensures DecodeAll(EncodeAll(fs) + more) == fs + DecodeAll(more)
    decreases |fs|
  {
    hide Decode, Encode, WellFormed, DecodeAll;
    if fs == [] {
      assert EncodeAll(fs) + more == more;
    } else {
      var n := |fs| - 1;
      var rest := Encode(fs[n]) + more;
      assert EncodeAll(fs) + more == EncodeAll(fs[..n]) + rest;
      DecodeAllEncoded(fs[..n], rest);
      DecodeAllStep(fs[n], more);
      assert fs[..n] + ([fs[n]] + DecodeAll(more)) == fs + DecodeAll(more);
    }
  }

  lemma PartSlice(b: bytes, k: nat, end: nat)
    requires 2 <= end <= k <= |b|
    ensures b[..k][2..end] == b[2..end]
  {
  }

  // The beginning of a written frame is never mistaken for a frame.
  lemma PartIsNoFrame(f: Frame, k: nat)
    requires WellFormed(f) && k < |Encode(f)|
    ensures Decode(Encode(f)[..k]) == Err(Short)
  {
    var b, p := Encode(f), Encode(f)[..k];
    HeadReadsBack(HeadOf(f), EncodeBody(f));
    assert DecodeHead(b) == Ok((HeadOf(f), EncodeBody(f)));
    if k >= 2 {
      assert p[0] == b[0] && p[1] == b[1];
      var end := LengthEnd(b);
      if k >= end {
        PartSlice(b, k, end);
        assert DecodeHead(p).value.0 == HeadOf(f);
      }
    }
  }

  // ---------- reading from a buffered stream ----------

  class BufReader {
    var unread: bytes

    constructor (b: bytes)
      ensures unread == b
    {
      unread := b;
    }

    method ReadByte() returns (r: Result<byte, ReadFailure>)
      modifies this
      ensures old(unread) != [] ==> r == Ok(old(unread)[0]) && unread == old(unread)[1..]
      ensures old(unread) == [] ==> r == Err(Short)
    {
      if unread == [] {
        return Err(Short);
      }
      r := Ok(unread[0]);
      unread := unread[1..];
    }

    // io.ReadFull: n bytes, or an error when fewer are left.
    method ReadFull(n: nat) returns (r: Result<bytes, ReadFailure>)
      modifies this
      ensures n <= |old(unread)| ==> r == Ok(old(unread)[..n]) && unread == old(unread)[n..]
      ensures n > |old(unread)| ==> r == Err(Short)
    {
      if n > |unread| {
        unread := [];
        return Err(Short);
      }
      r := Ok(unread[..n]);
      unread := unread[n..];
    }

    method ReadHead() returns (r: Result<Head, ReadFailure>)
      modifies this
      ensures match DecodeHead(old(unread))
        case Ok((h, rest)) => r == Ok(h) && unread == rest
        case Err(e) => r == Err(e)
    {
      ghost var b := unread;
      var b0 := ReadByte();
      if b0.Err? {
        return Err(b0.error);
      }
      var b1 := ReadByte();
      if b1.Err? {
        return Err(b1.error);
      }
      assert unread == b[2..];
      var length: nat := b1.value % 128;
      if length == 126 || length == 127 {
        var ext := ReadFull(if length == 126 then 2 else 8);
        if ext.Err? {
          return Err(ext.error);
        }
        length := Get(ext.value);
        assert ext.value == b[2..LengthEnd(b)];
      }
      assert unread == b[LengthEnd(b)..];
      return Ok(Head(b0.value >= 128, b0.value % 16, b1.value >= 128, length));
    }

    // One frame off the stream.
    method ReadWSFrame() returns (r: Result<Frame, ReadFailure>)
      modifies this
      ensures match Decode(old(unread))
        case Ok((f, more)) => r == Ok(f) && unread == more
        case Err(e) => r == Err(e)
      ensures r.Ok? ==> LaidOut(old(unread), r.value, unread)
    {
      if Decode(unread).Ok? { DecodedIsLaidOut(unread); }
      hide LaidOut;
      var head := ReadHead();
      if head.Err? {
        return Err(head.error);
      }
      var h := head.value;
      ghost var b := unread;
      var key := NO_KEY;
      if h.masked {
        var k := ReadFull(4);
        if k.Err? {
          return Err(k.error);
        }
        key := k.value;
      }
      if h.length > MAX_INT64 {
        return Err(NegativeLength);
      }
      var payload := ReadFull(h.length);
      if payload.Err? {
        return Err(payload.error);
      }
      ghost var start := if h.masked then 4 else 0;
      assert payload.value == b[start..start + h.length] && unread == b[start + h.length..];
      return Ok(Frame(h.fin, h.opcode, h.masked, key, if h.masked then Mask(payload.value, key) else payload.value));
    }
  }
}
