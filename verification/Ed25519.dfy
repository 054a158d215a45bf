/** Ed25519 (ed25519.rs): scalars modulo the group order, scalar multiplication
    over the limb field, signing and verifying.  The curve's group law, the
    order of its base point and point decoding are parameters; the hash is any
    function to 64 bytes. */
module Ed25519 {
  import opened Options
  import opened Words
  import opened Bytes
  import opened Limbs
  import opened Field25519
  import opened Monoid

  /** The group order L. */
  const ORDER: int := 0x1000_0000_0000_0000_0000_0000_0000_0000_14de_f9de_a2f7_9cd6_5812_631a_5cf5_d3ed
  const ORDER_WORDS: seq<u64> := [0x5812_631a_5cf5_d3ed, 0x14de_f9de_a2f7_9cd6, 0, 0x1000_0000_0000_0000]

  lemma OrderWords()
    ensures Limbs.Value(ORDER_WORDS) == ORDER && Scale(5) > 16 * ORDER && 16 * ORDER > Scale(4) > ORDER
  {
    assert Scale(1) == TWO64 && Scale(2) == TWO64 * TWO64 && Scale(3) == TWO64 * Scale(2);
    var w := ORDER_WORDS;
    assert Low(w, 1) == w[0] as int;
    assert Low(w, 2) == Low(w, 1) + w[1] as int * Scale(1);
    assert Low(w, 3) == Low(w, 2) + w[2] as int * Scale(2);
    assert Low(w, 4) == Low(w, 3) + w[3] as int * Scale(3);
  }

  // ---- scalars ------------------------------------------------------------------------

  /** r or r - L, whichever is not negative, by mask. */
  method SubtractOrder(r: seq<u64>) returns (s: seq<u64>)
    requires |r| == 5
    ensures |s| == 5 && Limbs.Value(s) == if Limbs.Value(r) < ORDER then Limbs.Value(r) else Limbs.Value(r) - ORDER
  {
    OrderWords();
    var diff, borrow := Limbs.Sub(r, ORDER_WORDS);
    LowBound(diff, 5);
    LowBound(r, 5);
    Multiple(borrow as int, Scale(5));
    var keep := ((borrow as int - 1) % TWO64) as u64;
    s := [Choose64(r[0], diff[0], keep), Choose64(r[1], diff[1], keep), Choose64(r[2], diff[2], keep),
          Choose64(r[3], diff[3], keep), Choose64(r[4], diff[4], keep)];
    assert s == if borrow == 0 then diff else r;
  }

  lemma Multiple(x: int, n: int)
    ensures (x == 0 ==> x * n == 0) && (x == 1 ==> x * n == n)
  {
  }

  /** One bit at a time: the integer of any number of bytes modulo L. */
  method Reduce(wide: seq<u8>) returns (out: seq<u8>)
    ensures |out| == 32 && Little(out) == Little(wide) % ORDER
  {
    var r: seq<u64> := [0, 0, 0, 0, 0];
    ghost var k := 0;
    var i := |wide| * 8;
    AllBits(wide);
    ZeroFive();
    while i > 0
      invariant 0 <= i <= |wide| * 8 && |r| == 5
      invariant BitsFrom(wide, i) == ORDER * k + Limbs.Value(r) && Limbs.Value(r) < ORDER
    {
      i := i - 1;
      var carry;
      r, carry := Limbs.Shl1(r, BitAt(wide, i));
      OrderWords();
      Multiple(carry as int, Scale(5));
      ghost var doubled := Limbs.Value(r);
      r := SubtractOrder(r);
      k := if doubled < ORDER then 2 * k else 2 * k + 1;
    }
    ModUnique(Little(wide), ORDER, k, Limbs.Value(r));
    OrderWords();
    TopLimbZero(r);
    out := FromWords(r[..4]);
    FromWordsValue(r[..4]);
    WordsValueIs(r[..4]);
    LowSame(r[..4], r, 4);
  }

  lemma ZeroFive()
    ensures Limbs.Value([0, 0, 0, 0, 0]) == 0
  {
    var z: seq<u64> := [0, 0, 0, 0, 0];
    assert Low(z, 1) == 0 && Low(z, 2) == 0 && Low(z, 3) == 0 && Low(z, 4) == 0;
  }

  lemma TopLimbZero(r: seq<u64>)
    requires |r| == 5 && Limbs.Value(r) < Scale(4)
    ensures Limbs.Value(r) == Low(r, 4)
  {
    if r[4] > 0 { ProductBound(1, Scale(4), r[4] as int, Scale(4)); }
  }

  /** (a b + c) modulo L, through the nine-word product. */
  method MulAdd(a: seq<u8>, b: seq<u8>, c: seq<u8>) returns (out: seq<u8>)
    requires |a| == 32 && |b| == 32 && |c| == 32
    ensures |out| == 32 && Little(out) == (Little(a) * Little(b) + Little(c)) % ORDER
  {
    var aw, bw, cw := ToWords(a), ToWords(b), ToWords(c);
    var product := Product(aw, bw);
    var sum := AddWords(product, cw);
    out := Reduce(FromWords(sum));
    FromWordsValue(sum);
    WordsValueIs(sum);
    ToWordsValue(a);
    ToWordsValue(b);
    ToWordsValue(c);
    WordsValueIs(aw);
    WordsValueIs(bw);
    WordsValueIs(cw);
  }

  /** Four rows; the carry of each is the limb above it, which was still zero. */
  method Product(a: seq<u64>, b: seq<u64>) returns (p: seq<u64>)
    requires |a| == 4 && |b| == 4
    ensures |p| == 9 && p[8] == 0 && Limbs.Value(p) == Limbs.Value(a) * Limbs.Value(b)
  {
    p := [0, 0, 0, 0, 0, 0, 0, 0, 0];
    ZeroNine(p);
    for i := 0 to 4
      invariant |p| == 9 && forall k :: i + 4 <= k < 9 ==> p[k] == 0
      invariant Limbs.Value(p) == Low(a, i) * Limbs.Value(b)
    {
      var carry;
      p, carry := AddRow(p, i, a[i], b);
      LowUpdate(p, i + 4, carry, 9);
      p := p[i + 4 := carry];
      RowAdds(Low(a, i), a[i] as int, Limbs.Value(b), Scale(i));
    }
  }

  lemma ZeroNine(p: seq<u64>)
    requires p == [0, 0, 0, 0, 0, 0, 0, 0, 0]
    ensures Limbs.Value(p) == 0
  {
    assert Low(p, 1) == 0 && Low(p, 2) == 0 && Low(p, 3) == 0 && Low(p, 4) == 0;
    assert Low(p, 5) == 0 && Low(p, 6) == 0 && Low(p, 7) == 0 && Low(p, 8) == 0;
  }

  method AddWords(p: seq<u64>, c: seq<u64>) returns (s: seq<u64>)
    requires |p| == 9 && p[8] == 0 && |c| == 4
    ensures |s| == 9 && Limbs.Value(s) == Limbs.Value(p) + Limbs.Value(c)
  {
    s := [];
    var carry: u128 := 0;
    for i := 0 to 9
      invariant |s| == i && carry <= 1
      invariant Limbs.Value(s) + carry as int * Scale(i) == Low(p, i) + Low(c, i)
    {
      var t := p[i] as u128 + At(c, i) as u128 + carry;
      var limb := (t % 0x1_0000_0000_0000_0000) as u64;
      ghost var before := carry;
      carry := t / 0x1_0000_0000_0000_0000;
      CarryStep(p[i] as int, At(c, i) as int, before as int, limb as int, carry as int, Scale(i));
      LowPush(s, limb);
      s := s + [limb];
    }
    LowPast(c, 9);
    NoCarry(p, c);
    LowBound(s, 9);
    Multiple(carry as int, Scale(9));
  }

  lemma NoCarry(p: seq<u64>, c: seq<u64>)
    requires |p| == 9 && p[8] == 0 && |c| == 4
    ensures Limbs.Value(p) + Limbs.Value(c) < Scale(9)
  {
    LowBound(p, 8);
    LowBound(c, 4);
    assert Scale(8) == TWO64 * (TWO64 * (TWO64 * (TWO64 * Scale(4))));
    assert Scale(9) == TWO64 * Scale(8);
  }

  // ---- points -----------------------------------------------------------------------

  /** Extended coordinates over the limb field. */
  datatype Point = Point(x: Fe, y: Fe, z: Fe, t: Fe)

  /** The same coordinates as residues modulo P. */
  datatype Coords = Coords(x: nat, y: nat, z: nat, t: nat)

  predicate Held(p: Point)
  {
    Bounded(p.x) && Bounded(p.y) && Bounded(p.z) && Bounded(p.t)
  }

  function CoordsOf(p: Point): Coords
  {
    Coords(Residue(p.x), Residue(p.y), Residue(p.z), Residue(p.t))
  }

  const IDENTITY := Point(ZERO, ONE, ONE, ZERO)

  /** The addition formula add-2008-hwcd-3, modulo P: the four products, and the
      sum they give. */
  function AddCoords(d2: nat, p: Coords, q: Coords): Coords
  {
    Combine(((p.y - p.x) % P * ((q.y - q.x) % P)) % P, ((p.y + p.x) % P * ((q.y + q.x) % P)) % P,
            ((p.t * d2) % P * q.t) % P, ((p.z + p.z) % P * q.z) % P)
  }

  function Combine(a: nat, b: nat, c: nat, d: nat): Coords
  {
    var e, f, g, h := (b - a) % P, (d - c) % P, (d + c) % P, (b + a) % P;
    Coords((e * f) % P, (g * h) % P, (f * g) % P, (e * h) % P)
  }

  method AddPoints(p: Point, q: Point, d2: Fe) returns (r: Point)
    requires Held(p) && Held(q) && Bounded(d2)
    ensures Held(r) && CoordsOf(r) == AddCoords(Residue(d2), CoordsOf(p), CoordsOf(q))
  {
    var ypx := Field25519.Sub(p.y, p.x);
    var yqx := Field25519.Sub(q.y, q.x);
    var a := Mul(ypx, yqx);
    var spx := Field25519.Add(p.y, p.x);
    var sqx := Field25519.Add(q.y, q.x);
    var b := Mul(spx, sqx);
    var td := Mul(p.t, d2);
    var c := Mul(td, q.t);
    var zz := Field25519.Add(p.z, p.z);
    var d := Mul(zz, q.z);
    r := CombineFe(a, b, c, d);
  }

  method CombineFe(a: Fe, b: Fe, c: Fe, d: Fe) returns (r: Point)
    requires Bounded(a) && Bounded(b) && Bounded(c) && Bounded(d)
    ensures Held(r) && CoordsOf(r) == Combine(Residue(a), Residue(b), Residue(c), Residue(d))
  {
    var e := Field25519.Sub(b, a);
    var f := Field25519.Sub(d, c);
    var g := Field25519.Add(d, c);
    var h := Field25519.Add(b, a);
    var x := Mul(e, f);
    var y := Mul(g, h);
    var t := Mul(e, h);
    var z := Mul(f, g);
    r := Point(x, y, z, t);
  }

  method SelectPoint(a: Point, b: Point, choice: u64) returns (r: Point)
    requires choice <= 1
    ensures r == if choice == 1 then b else a
  {
    var x := Select(a.x, b.x, choice);
    var y := Select(a.y, b.y, choice);
    var z := Select(a.z, b.z, choice);
    var t := Select(a.t, b.t, choice);
    r := Point(x, y, z, t);
  }

  /** The encoding of a point: y/z with the parity of x/z in the top bit. */
  function Encoding(c: Coords): seq<u8>
  {
    var zi := Power(c.z, P - 2);
    LittleBytes((c.y * zi) % P + Pow2(255) * ((c.x * zi) % P % 2), 32)
  }

  method Compress(p: Point) returns (out: seq<u8>)
    requires Held(p)
    ensures out == Encoding(CoordsOf(p)) && |out| == 32
  {
    var zi := Invert(p.z);
    var x := Mul(p.x, zi);
    var y := Mul(p.y, zi);
    out := ToBytes(y);
    var odd := IsOdd(x);
    TopByte(out);
    ghost var was := out;
    // The top bit of the last byte is clear, so or-ing the parity in adds it.
    out := out[31 := out[31] + odd as u8 * 128];
    SetTop(was, odd as u8);
    WrittenOnce(out, Residue(y) + Pow2(255) * (odd as int));
  }

  lemma TopByte(s: seq<u8>)
    requires |s| == 32 && Little(s) < P
    ensures s[31] < 128
  {
    LastByte(s);
    PIsPower();
    Pow2Add(248, 7);
    assert Pow2(7) == 128;
    if s[31] >= 128 { ProductBound(Pow2(248), 128, Pow2(248), s[31] as int); }
  }

  lemma SetTop(s: seq<u8>, odd: u8)
    requires |s| == 32 && s[31] < 128 && odd <= 1
    ensures Little(s[31 := s[31] + odd * 128]) == Little(s) + Pow2(255) * odd as int
  {
    var t := s[31 := s[31] + odd * 128];
    LastByte(s);
    LastByte(t);
    assert t[..31] == s[..31];
    Pow2Add(248, 7);
    assert Pow2(7) == 128;
    TopPlace(Pow2(248), s[31] as int, odd as int);
  }

  lemma TopPlace(w: int, x: int, odd: int)
    ensures w * (x + odd * 128) == w * x + (w * 128) * odd
  {
  }

  lemma LastByte(s: seq<u8>)
    requires |s| == 32
    ensures Little(s) == Little(s[..31]) + Pow2(248) * s[31] as int
  {
    assert s == s[..31] + [s[31]];
    LittleAppend(s[..31], [s[31]]);
    assert Little([s[31]]) == s[31] as int;
  }

  // ---- scalar multiplication ------------------------------------------------------------

  /** A curve: its group, the element coordinates denote, and point decoding. */
  datatype Curve<!G(!new)> = Curve(group: Op<G>, denote: Coords -> G, onCurve: Coords -> bool,
                                   encode: Coords -> seq<u8>, decode: seq<u8> -> Option<Point>, base: Point, d2: Fe)

  ghost predicate EncodesByFormula<G(!new)>(c: Curve<G>, p: Coords)
  {
    c.encode(p) == Encoding(p)
  }

  ghost predicate Adds<G(!new)>(c: Curve<G>, p: Coords, q: Coords)
  {
    c.onCurve(p) && c.onCurve(q) ==>
      c.onCurve(AddCoords(Residue(c.d2), p, q)) &&
      c.denote(AddCoords(Residue(c.d2), p, q)) == c.group.apply(c.denote(p), c.denote(q))
  }

  ghost predicate EncodesOnce<G(!new)>(c: Curve<G>, p: Coords, q: Coords)
  {
    c.onCurve(p) && c.onCurve(q) && c.denote(p) == c.denote(q) ==> c.encode(p) == c.encode(q)
  }

  ghost predicate Decodes<G(!new)>(c: Curve<G>, p: Coords)
  {
    c.onCurve(p) ==> var d := c.decode(c.encode(p)); d.Some? && c.denote(CoordsOf(d.value)) == c.denote(p)
  }

  ghost predicate DecodesToPoints<G(!new)>(c: Curve<G>, bytes: seq<u8>)
  {
    c.decode(bytes).Some? ==> Held(c.decode(bytes).value) && c.onCurve(CoordsOf(c.decode(bytes).value))
  }

  /** What is taken from the curve: the formula is the group law and complete, the
      base point has order L, an element has one encoding and decodes from it. */
  ghost predicate CurveLaws<G(!new)>(c: Curve<G>)
  {
    && Laws(c.group) && (forall g :: c.group.apply(g, c.group.unit) == g)
    && Bounded(c.d2) && Held(c.base) && c.onCurve(CoordsOf(c.base))
    && c.onCurve(CoordsOf(IDENTITY)) && c.denote(CoordsOf(IDENTITY)) == c.group.unit
    && (forall p, q :: Adds(c, p, q))
    && (forall p :: EncodesByFormula(c, p))
    && (forall p, q :: EncodesOnce(c, p, q))
    && (forall p :: Decodes(c, p))
    && (forall bytes :: DecodesToPoints(c, bytes))
    && Repeat(c.group, c.denote(CoordsOf(c.base)), ORDER) == c.group.unit
  }

  /** p denotes g. */
  ghost predicate Denotes<G(!new)>(c: Curve<G>, p: Point, g: G)
  {
    Held(p) && c.onCurve(CoordsOf(p)) && c.denote(CoordsOf(p)) == g
  }

  method AddDenoted<G(!new)>(ghost c: Curve<G>, d2: Fe, p: Point, q: Point, ghost g: G, ghost h: G) returns (r: Point)
    requires CurveLaws(c) && d2 == c.d2 && Denotes(c, p, g) && Denotes(c, q, h)
    ensures Denotes(c, r, c.group.apply(g, h))
  {
    r := AddPoints(p, q, d2);
    assert Adds(c, CoordsOf(p), CoordsOf(q));
  }

  method CompressDenoted<G(!new)>(ghost c: Curve<G>, p: Point, ghost g: G) returns (out: seq<u8>)
    requires CurveLaws(c) && Denotes(c, p, g)
    ensures |out| == 32 && Encodes(c, g, out)
  {
    out := Compress(p);
    assert EncodesByFormula(c, CoordsOf(p));
    assert EncodesAs(c, g, out, CoordsOf(p));
  }

  /** Double and add over all 256 bits, the sum kept by mask: [scalar]p. */
  method Multiply<G(!new)>(ghost c: Curve<G>, d2: Fe, p: Point, scalar: seq<u8>, ghost g: G) returns (q: Point)
    requires CurveLaws(c) && d2 == c.d2 && Denotes(c, p, g) && |scalar| == 32
    ensures Denotes(c, q, Repeat(c.group, g, Little(scalar)))
  {
    q := IDENTITY;
    var i := 8 * |scalar|;
    AllBits(scalar);
    while i > 0
      invariant 0 <= i <= 8 * |scalar|
      invariant Denotes(c, q, Repeat(c.group, g, BitsFrom(scalar, i)))
    {
      i := i - 1;
      q := MultiplyStep(c, d2, q, p, BitAt(scalar, i), g, BitsFrom(scalar, i + 1));
    }
  }

  method MultiplyStep<G(!new)>(ghost c: Curve<G>, d2: Fe, q: Point, p: Point, bit: u64, ghost g: G, ghost n: nat)
    returns (r: Point)
    requires CurveLaws(c) && d2 == c.d2 && Denotes(c, p, g) && bit <= 1 && Denotes(c, q, Repeat(c.group, g, n))
    ensures Denotes(c, r, Repeat(c.group, g, 2 * n + bit as int))
  {
    ghost var was := Repeat(c.group, g, n);
    var double := AddDenoted(c, d2, q, q, was, was);
    DoubledPower(c.group, g, n);
    var sum := AddDenoted(c, d2, double, p, Repeat(c.group, g, 2 * n), g);
    r := SelectPoint(double, sum, bit);
  }

  lemma DoubledPower<G(!new)>(o: Op<G>, g: G, n: nat)
    requires Laws(o) && o.apply(g, o.unit) == g
    ensures o.apply(Repeat(o, g, n), Repeat(o, g, n)) == Repeat(o, g, 2 * n)
    ensures o.apply(Repeat(o, g, 2 * n), g) == Repeat(o, g, 2 * n + 1)
  {
    RepeatAdd(o, g, n, n);
    RepeatAdd(o, g, 2 * n, 1);
    assert Repeat(o, g, 1) == o.apply(g, Repeat(o, g, 0));
  }

  // ---- signatures ---------------------------------------------------------------------

  type Hash = seq<u8> -> seq<u8>

  ghost predicate Hashes(hash: Hash)
  {
    forall m :: |hash(m)| == 64
  }

  /** bytes is the encoding of g. */
  ghost predicate Encodes<G(!new)>(c: Curve<G>, g: G, bytes: seq<u8>)
  {
    exists p :: EncodesAs(c, g, bytes, p)
  }

  ghost predicate EncodesAs<G(!new)>(c: Curve<G>, g: G, bytes: seq<u8>, p: Coords)
  {
    c.onCurve(p) && c.denote(p) == g && bytes == c.encode(p)
  }

  lemma OneEncoding<G(!new)>(c: Curve<G>, g: G, a: seq<u8>, b: seq<u8>)
    requires CurveLaws(c) && Encodes(c, g, a) && Encodes(c, g, b)
    ensures a == b
  {
    var p :| EncodesAs(c, g, a, p);
    var q :| EncodesAs(c, g, b, q);
    assert EncodesOnce(c, p, q);
  }

  /** The clamped scalar of a seed's hash, and the nonce prefix. */
  function Expand(hash: Hash, seed: seq<u8>): (r: (seq<u8>, seq<u8>))
    requires Hashes(hash)
    ensures |r.0| == 32 && |r.1| == 32
  {
    var h := hash(seed);
    var s := h[..32];
    (s[0 := s[0] / 8 * 8][31 := s[31] % 64 + 64], h[32..])
  }

  /** [n]B. */
  ghost function BaseMultiple<G(!new)>(c: Curve<G>, n: nat): G
  {
    Repeat(c.group, c.denote(CoordsOf(c.base)), n)
  }

  ghost function SecretScalar(hash: Hash, seed: seq<u8>): nat
    requires Hashes(hash)
  {
    Little(Expand(hash, seed).0)
  }

  function NonceScalar(hash: Hash, prefix: seq<u8>, message: seq<u8>): nat
  {
    Little(hash(prefix + message)) % ORDER
  }

  function Challenge(hash: Hash, r: seq<u8>, public: seq<u8>, message: seq<u8>): nat
  {
    Little(hash(r + public + message)) % ORDER
  }

  method PublicKey<G(!new)>(c: Curve<G>, hash: Hash, seed: seq<u8>) returns (public: seq<u8>)
    requires CurveLaws(c) && Hashes(hash)
    ensures |public| == 32 && Encodes(c, BaseMultiple(c, SecretScalar(hash, seed)), public)
  {
    var (scalar, prefix) := Expand(hash, seed);
    var a := Multiply(c, c.d2, c.base, scalar, c.denote(CoordsOf(c.base)));
    public := CompressDenoted(c, a, BaseMultiple(c, Little(scalar)));
  }

  /** The signature the seed makes of the message: the encoding of [nonce]B, and
      challenge times secret scalar plus nonce, modulo L. */
  ghost predicate IsSignature<G(!new)>(c: Curve<G>, hash: Hash, seed: seq<u8>, message: seq<u8>, signature: seq<u8>)
    requires Hashes(hash) && |signature| == 64
  {
    var (scalar, prefix) := Expand(hash, seed);
    var nonce := NonceScalar(hash, prefix, message);
    && Encodes(c, BaseMultiple(c, nonce), signature[..32])
    && exists public :: Encodes(c, BaseMultiple(c, Little(scalar)), public) &&
         Little(signature[32..]) == (Challenge(hash, signature[..32], public, message) * Little(scalar) + nonce) % ORDER
  }

  /** R is the encoding of the nonce's multiple and S is k a + r modulo L. */
  method Sign<G(!new)>(c: Curve<G>, hash: Hash, seed: seq<u8>, message: seq<u8>) returns (signature: seq<u8>)
    requires CurveLaws(c) && Hashes(hash)
    ensures |signature| == 64 && IsSignature(c, hash, seed, message, signature)
  {
    var (scalar, prefix) := Expand(hash, seed);
    ghost var g := c.denote(CoordsOf(c.base));
    var a := Multiply(c, c.d2, c.base, scalar, g);
    var public := CompressDenoted(c, a, BaseMultiple(c, Little(scalar)));
    var nonce := Reduce(hash(prefix + message));
    var rPoint := Multiply(c, c.d2, c.base, nonce, g);
    var r := CompressDenoted(c, rPoint, BaseMultiple(c, Little(nonce)));
    var k := Reduce(hash(r + public + message));
    var s := MulAdd(k, scalar, nonce);
    signature := r + s;
    assert signature[..32] == r && signature[32..] == s;
  }

  /** What verification accepts: S below L, both points decode, and [S]B and
      R + [k]A have the same encoding. */
  ghost predicate Accepts<G(!new)>(c: Curve<G>, hash: Hash, public: seq<u8>, message: seq<u8>, signature: seq<u8>)
    requires |signature| == 64
  {
    var r, s := signature[..32], Little(signature[32..]);
    && s < ORDER && c.decode(public).Some? && c.decode(r).Some?
    && exists bytes :: Encodes(c, BaseMultiple(c, s), bytes) && Encodes(c, RightSide(c, hash, public, message, r), bytes)
  }

  ghost function RightSide<G(!new)>(c: Curve<G>, hash: Hash, public: seq<u8>, message: seq<u8>, r: seq<u8>): G
    requires c.decode(public).Some? && c.decode(r).Some?
  {
    c.group.apply(c.denote(CoordsOf(c.decode(r).value)),
                  Repeat(c.group, c.denote(CoordsOf(c.decode(public).value)), Challenge(hash, r, public, message)))
  }

  /** `reduce(&s) == s` holds exactly of the scalars below L. */
  method BelowOrder(s: seq<u8>) returns (ok: bool)
    requires |s| == 32
    ensures ok <==> Little(s) < ORDER
  {
    var reduced := Reduce(s);
    ok := reduced == s;
    BytesRoundTrip(reduced);
    BytesRoundTrip(s);
    OwnRemainder(Little(s));
  }

  lemma OwnRemainder(n: nat)
    ensures n % ORDER == n <==> n < ORDER
  {
    if n < ORDER { ModUnique(n, ORDER, 0, n); }
  }

  method Verify<G(!new)>(c: Curve<G>, hash: Hash, public: seq<u8>, message: seq<u8>, signature: seq<u8>) returns (ok: bool)
    requires CurveLaws(c) && Hashes(hash) && |signature| == 64
    ensures ok <==> Accepts(c, hash, public, message, signature)
  {
    var r, s := signature[..32], signature[32..];
    var canonical := BelowOrder(s);
    if !canonical {
      return false;
    }
    var a, rp := c.decode(public), c.decode(r);
    if a.None? || rp.None? {
      return false;
    }
    assert DecodesToPoints(c, public) && DecodesToPoints(c, r);
    var k := Reduce(hash(r + public + message));
    ghost var left, right := BaseMultiple(c, Little(s)), RightSide(c, hash, public, message, r);
    var sb := Multiply(c, c.d2, c.base, s, c.denote(CoordsOf(c.base)));
    var leftBytes := CompressDenoted(c, sb, left);
    var rightBytes := RightBytes(c, a.value, rp.value, k, right);
    ok := leftBytes == rightBytes;
    SameBytes(c, left, right, leftBytes, rightBytes);
  }

  /** The encoding of R + [k]A. */
  method RightBytes<G(!new)>(c: Curve<G>, a: Point, r: Point, k: seq<u8>, ghost right: G) returns (bytes: seq<u8>)
    requires CurveLaws(c) && |k| == 32
    requires Denotes(c, a, c.denote(CoordsOf(a))) && Denotes(c, r, c.denote(CoordsOf(r)))
    requires right == c.group.apply(c.denote(CoordsOf(r)), Repeat(c.group, c.denote(CoordsOf(a)), Little(k)))
    ensures Encodes(c, right, bytes)
  {
    ghost var g, h := c.denote(CoordsOf(a)), c.denote(CoordsOf(r));
    var ka := Multiply(c, c.d2, a, k, g);
    var sum := AddDenoted(c, c.d2, r, ka, h, Repeat(c.group, g, Little(k)));
    bytes := CompressDenoted(c, sum, right);
  }

  lemma SameBytes<G(!new)>(c: Curve<G>, x: G, y: G, a: seq<u8>, b: seq<u8>)
    requires CurveLaws(c) && Encodes(c, x, a) && Encodes(c, y, b)
    ensures a == b <==> exists bytes :: Encodes(c, x, bytes) && Encodes(c, y, bytes)
  {
    if bytes :| Encodes(c, x, bytes) && Encodes(c, y, bytes) {
      OneEncoding(c, x, a, bytes);
      OneEncoding(c, y, b, bytes);
    }
  }

  /** Multiples of the base point repeat with period L. */
  lemma MultipleModulo<G(!new)>(c: Curve<G>, n: nat)
    requires CurveLaws(c)
    ensures BaseMultiple(c, n % ORDER) == BaseMultiple(c, n)
  {
    var g, o := c.denote(CoordsOf(c.base)), c.group;
    var q, r := n / ORDER, n % ORDER;
    assert n == ORDER * q + r;
    RepeatRepeat(o, g, ORDER, q);
    UnitPower(o, q);
    RepeatAdd(o, g, ORDER * q, r);
    UnitLeft(o, g, r);
  }

  lemma {:induction false} UnitPower<G(!new)>(o: Op<G>, n: nat)
    requires Laws(o)
    ensures Repeat(o, o.unit, n) == o.unit
  {
    if n > 0 { UnitPower(o, n - 1); }
  }

  /** What a signature states, for the one encoding there is of the public key. */
  lemma UnderThisKey<G(!new)>(c: Curve<G>, hash: Hash, seed: seq<u8>, message: seq<u8>, public: seq<u8>, signature: seq<u8>)
      returns (nonce: nat)
    requires CurveLaws(c) && Hashes(hash) && |signature| == 64
    requires Encodes(c, BaseMultiple(c, SecretScalar(hash, seed)), public)
    requires IsSignature(c, hash, seed, message, signature)
    ensures Encodes(c, BaseMultiple(c, nonce), signature[..32])
    ensures Little(signature[32..])
      == (Challenge(hash, signature[..32], public, message) * SecretScalar(hash, seed) + nonce) % ORDER
  {
    var (scalar, prefix) := Expand(hash, seed);
    nonce := NonceScalar(hash, prefix, message);
    var a, r := Little(scalar), signature[..32];
    var p :| Encodes(c, BaseMultiple(c, a), p) &&
             Little(signature[32..]) == (Challenge(hash, r, p, message) * a + nonce) % ORDER;
    OneEncoding(c, BaseMultiple(c, a), p, public);
  }

  /** Every signature made verifies under the signer's public key. */
  lemma SignatureVerifies<G(!new)>(c: Curve<G>, hash: Hash, seed: seq<u8>, message: seq<u8>, public: seq<u8>, signature: seq<u8>)
    requires CurveLaws(c) && Hashes(hash) && |signature| == 64
    requires Encodes(c, BaseMultiple(c, SecretScalar(hash, seed)), public)
    requires IsSignature(c, hash, seed, message, signature)
    ensures Accepts(c, hash, public, message, signature)
  {
    var a, r := SecretScalar(hash, seed), signature[..32];
    var nonce := UnderThisKey(c, hash, seed, message, public, signature);
    var k := Challenge(hash, r, public, message);
    DecodesBack(c, BaseMultiple(c, a), public);
    DecodesBack(c, BaseMultiple(c, nonce), r);
    ResponseOpens(c, a, nonce, k);
    EncodingExists(c, Little(signature[32..]));
  }

  /** [r]B + [k]([a]B) is [(k a + r) mod L]B. */
  lemma ResponseOpens<G(!new)>(c: Curve<G>, a: nat, r: nat, k: nat)
    requires CurveLaws(c)
    ensures c.group.apply(BaseMultiple(c, r), Repeat(c.group, BaseMultiple(c, a), k)) == BaseMultiple(c, (k * a + r) % ORDER)
  {
    var g, o := c.denote(CoordsOf(c.base)), c.group;
    RepeatRepeat(o, g, a, k);
    RepeatAdd(o, g, r, a * k);
    assert k * a + r == r + a * k;
    MultipleModulo(c, k * a + r);
  }

  lemma DecodesBack<G(!new)>(c: Curve<G>, g: G, bytes: seq<u8>)
    requires CurveLaws(c) && Encodes(c, g, bytes)
    ensures c.decode(bytes).Some? && c.denote(CoordsOf(c.decode(bytes).value)) == g
  {
    var p :| EncodesAs(c, g, bytes, p);
    assert Decodes(c, p);
  }

  lemma {:induction false} EncodingExists<G(!new)>(c: Curve<G>, n: nat)
    requires CurveLaws(c)
    ensures exists bytes :: Encodes(c, BaseMultiple(c, n), bytes)
  {
    var p := OnCurveMultiple(c, n);
    assert EncodesAs(c, BaseMultiple(c, n), c.encode(p), p);
    assert Encodes(c, BaseMultiple(c, n), c.encode(p));
  }

  lemma {:induction false} OnCurveMultiple<G(!new)>(c: Curve<G>, n: nat) returns (p: Coords)
    requires CurveLaws(c)
    ensures c.onCurve(p) && c.denote(p) == BaseMultiple(c, n)
  {
    if n == 0 {
      p := CoordsOf(IDENTITY);
    } else {
      var q := OnCurveMultiple(c, n - 1);
      p := AddCoords(Residue(c.d2), CoordsOf(c.base), q);
      assert Adds(c, CoordsOf(c.base), q);
    }
  }
}
