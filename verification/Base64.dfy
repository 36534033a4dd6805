// Text as UTF-8 bytes, and bytes as URL-safe base64 without padding (section 5 of RFC 4648).
module Base64 {
  import opened Wrappers

  type Byte = n: nat | n < 256

  // ---------- the alphabet ----------

  function Letter(k: nat): char
    requires k < 64
  {
    if k < 26 then ('A' as int + k) as char
    else if k < 52 then ('a' as int + k - 26) as char
    else if k < 62 then ('0' as int + k - 52) as char
    else if k == 62 then '-'
    else '_'
  }

  function Index(c: char): (r: Option<nat>)
    ensures r.Some? ==> r.value < 64 && Letter(r.value) == c
  {
    if 'A' <= c <= 'Z' then Some(c as int - 'A' as int)
    else if 'a' <= c <= 'z' then Some(c as int - 'a' as int + 26)
    else if '0' <= c <= '9' then Some(c as int - '0' as int + 52)
    else if c == '-' then Some(62)
    else if c == '_' then Some(63)
    else None
  }

  lemma LetterIndex(k: nat)
    requires k < 64
    ensures Index(Letter(k)) == Some(k) && Letter(k) != ':'
  {
  }

  type Sextet = n: nat | n < 64

  function Letters(q: seq<Sextet>): string {
    seq(|q|, i requires 0 <= i < |q| => Letter(q[i]))
  }

  function Indices(t: string): Option<seq<Sextet>> {
    if forall i :: 0 <= i < |t| ==> Index(t[i]).Some?
    then Some(seq(|t|, i requires 0 <= i < |t| => Index(t[i]).value))
    else None
  }

  lemma IndicesIff(t: string, q: seq<Sextet>)
    ensures Indices(t) == Some(q) <==> t == Letters(q)
    ensures ':' !in Letters(q)
  {
    forall i | 0 <= i < |q|
      ensures Index(Letter(q[i])) == Some(q[i]) && Letter(q[i]) != ':'
    {
      LetterIndex(q[i]);
    }
    if Indices(t) == Some(q) {
      assert forall i :: 0 <= i < |t| ==> q[i] == Index(t[i]).value;
      assert t == Letters(q);
    }
    if t == Letters(q) {
      assert Indices(t).value == q;
    }
  }

  // ---------- three bytes, four sextets ----------

  function Quad(x: Byte, y: Byte, z: Byte): seq<Sextet> {
    [x / 4, x % 4 * 16 + y / 16, y % 16 * 4 + z / 64, z % 64]
  }

  function Triple(p: Sextet, q: Sextet, r: Sextet, w: Sextet): seq<Byte> {
    [p * 4 + q / 16, q % 16 * 16 + r / 4, r % 4 * 64 + w]
  }

  lemma TripleOfQuad(x: Byte, y: Byte, z: Byte)
    ensures var q := Quad(x, y, z); Triple(q[0], q[1], q[2], q[3]) == [x, y, z]
    ensures z == 0 ==> Quad(x, y, z)[2] % 4 == 0 && Quad(x, y, z)[3] == 0
    ensures y == 0 && z == 0 ==> Quad(x, y, z)[1] % 16 == 0 && Quad(x, y, z)[2] == 0
  {
    var p, q, r, w := x / 4, x % 4 * 16 + y / 16, y % 16 * 4 + z / 64, z % 64;
    assert q / 16 == x % 4 && q % 16 == y / 16;
    assert r / 4 == y % 16 && r % 4 == z / 64;
    assert x == p * 4 + x % 4 && y == y / 16 * 16 + y % 16 && z == z / 64 * 64 + w;
  }

  lemma QuadOfTriple(p: Sextet, q: Sextet, r: Sextet, w: Sextet)
    ensures var b := Triple(p, q, r, w); Quad(b[0], b[1], b[2]) == [p, q, r, w]
    ensures r % 4 == 0 && w == 0 ==> Triple(p, q, r, w)[2] == 0
    ensures q % 16 == 0 && r == 0 && w == 0 ==> Triple(p, q, r, w)[1] == 0
  {
    var x, y, z := p * 4 + q / 16, q % 16 * 16 + r / 4, r % 4 * 64 + w;
    assert x / 4 == p && x % 4 == q / 16;
    assert y / 16 == q % 16 && y % 16 == r / 4;
    assert z / 64 == r % 4 && z % 64 == w;
    assert q == q / 16 * 16 + q % 16 && r == r / 4 * 4 + r % 4;
  }

  // The last group is filled up with zero bytes and cut to the sextets that carry bits.
  function Pack(b: seq<Byte>): seq<Sextet>
    decreases |b|
  {
    if |b| == 0 then []
    else if |b| == 1 then Quad(b[0], 0, 0)[..2]
    else if |b| == 2 then Quad(b[0], b[1], 0)[..3]
    else Quad(b[0], b[1], b[2]) + Pack(b[3..])
  }

  // Left-over bits of the last sextet must be zero.
  function Unpack(q: seq<Sextet>): Option<seq<Byte>>
    decreases |q|
  {
    if |q| == 0 then Some([])
    else if |q| == 1 then None
    else if |q| == 2 then if q[1] % 16 == 0 then Some(Triple(q[0], q[1], 0, 0)[..1]) else None
    else if |q| == 3 then if q[2] % 4 == 0 then Some(Triple(q[0], q[1], q[2], 0)[..2]) else None
    else
      match Unpack(q[4..])
      case None => None
      case Some(rest) => Some(Triple(q[0], q[1], q[2], q[3]) + rest)
  }

  lemma {:induction false} UnpackPack(b: seq<Byte>)
    ensures Unpack(Pack(b)) == Some(b)
    decreases |b|
  {
    var x, y, z := if |b| > 0 then b[0] else 0, if |b| > 1 then b[1] else 0, if |b| > 2 then b[2] else 0;
    TripleOfQuad(x, y, z);
    if |b| == 1 {
      assert b == [x, y, z][..1];
    } else if |b| == 2 {
      assert b == [x, y, z][..2];
    } else if |b| > 2 {
      UnpackPack(b[3..]);
      assert Pack(b)[..4] == Quad(x, y, z) && Pack(b)[4..] == Pack(b[3..]) && b == [x, y, z] + b[3..];
    }
  }

  lemma {:induction false} PackUnpack(q: seq<Sextet>, b: seq<Byte>)
    requires Unpack(q) == Some(b)
    ensures q == Pack(b)
    decreases |q|
  {
    if |q| == 2 {
      QuadOfTriple(q[0], q[1], 0, 0);
      assert q == Quad(b[0], 0, 0)[..2];
    } else if |q| == 3 {
      QuadOfTriple(q[0], q[1], q[2], 0);
      assert q == Quad(b[0], b[1], 0)[..3];
    } else if |q| > 3 {
      var rest := Unpack(q[4..]).value;
      PackUnpack(q[4..], rest);
      QuadOfTriple(q[0], q[1], q[2], q[3]);
      assert b[..3] == Triple(q[0], q[1], q[2], q[3]) && b[3..] == rest;
      assert q == Quad(b[0], b[1], b[2]) + q[4..];
    }
  }

  // ---------- texts ----------

  function Encode(b: seq<Byte>): string {
    Letters(Pack(b))
  }

  function Decode(t: string): Option<seq<Byte>> {
    match Indices(t)
    case None => None
    case Some(q) => Unpack(q)
  }

  // A byte string decodes from its encoding and from no other text.
  lemma DecodeIff(t: string, b: seq<Byte>)
    ensures Decode(t) == Some(b) <==> t == Encode(b)
    ensures ':' !in Encode(b)
  {
    UnpackPack(b);
    IndicesIff(t, Pack(b));
    if Decode(t) == Some(b) {
      PackUnpack(Indices(t).value, b);
    }
  }

  // ---------- UTF-8 ----------

  function EncodeChar(c: char): seq<Byte> {
    var n := c as int;
    if n < 0x80 then [n]
    else if n < 0x800 then [0xC0 + n / 64, 0x80 + n % 64]
    else if n < 0x10000 then [0xE0 + n / 4096, 0x80 + n / 64 % 64, 0x80 + n % 64]
    else [0xF0 + n / 262144, 0x80 + n / 4096 % 64, 0x80 + n / 64 % 64, 0x80 + n % 64]
  }

  function Utf8(s: string): seq<Byte> {
    if s == "" then [] else EncodeChar(s[0]) + Utf8(s[1..])
  }

  predicate Tail(n: Byte) {
    0x80 <= n < 0xC0
  }

  function Two(x: int, y: int): int {
    (x - 0xC0) * 64 + (y - 0x80)
  }

  function Three(x: int, y: int, z: int): int {
    (x - 0xE0) * 4096 + (y - 0x80) * 64 + (z - 0x80)
  }

  function Four(x: int, y: int, z: int, w: int): int {
    (x - 0xF0) * 262144 + (y - 0x80) * 4096 + (z - 0x80) * 64 + (w - 0x80)
  }

  // The scalar value and the length of the first character; overlong forms, surrogates and
  // values past the last code point are refused.
  function FirstScalar(b: seq<Byte>): (r: Option<(nat, nat)>)
    ensures r.Some? ==> 1 <= r.value.1 <= |b| && (r.value.0 < 0xD800 || 0xE000 <= r.value.0 < 0x11_0000)
  {
    if |b| >= 1 && b[0] < 0x80 then Some((b[0], 1))
    else if |b| >= 2 && 0xC2 <= b[0] < 0xE0 && Tail(b[1]) then Some((Two(b[0], b[1]), 2))
    else if |b| >= 3 && 0xE0 <= b[0] < 0xF0 && Tail(b[1]) && Tail(b[2]) then
      var n := Three(b[0], b[1], b[2]);
      if n < 0x800 || 0xD800 <= n < 0xE000 then None else Some((n, 3))
    else if |b| >= 4 && 0xF0 <= b[0] < 0xF5 && Tail(b[1]) && Tail(b[2]) && Tail(b[3]) then
      var n := Four(b[0], b[1], b[2], b[3]);
      if n < 0x10000 || n >= 0x11_0000 then None else Some((n, 4))
    else None
  }

  function FromUtf8(b: seq<Byte>): Option<string>
    decreases |b|
  {
    if b == [] then Some("")
    else
      match FirstScalar(b)
      case None => None
      case Some((n, k)) =>
        match FromUtf8(b[k..])
        case None => None
        case Some(s) => Some([n as char] + s)
  }

  lemma ScalarBits(n: nat)
    requires n < 0x11_0000
    ensures n < 0x800 ==> n / 64 < 32 && Two(0xC0 + n / 64, 0x80 + n % 64) == n
    ensures 0x80 <= n < 0x800 ==> 0xC2 <= 0xC0 + n / 64
    ensures n < 0x10000 ==> n / 4096 < 16 && Three(0xE0 + n / 4096, 0x80 + n / 64 % 64, 0x80 + n % 64) == n
    ensures n / 262144 < 5 && Four(0xF0 + n / 262144, 0x80 + n / 4096 % 64, 0x80 + n / 64 % 64, 0x80 + n % 64) == n
  {
    assert n == n / 64 * 64 + n % 64 && n / 64 == n / 4096 * 64 + n / 64 % 64 &&
           n / 4096 == n / 262144 * 64 + n / 4096 % 64;
  }

  lemma FirstOfChar(c: char, rest: seq<Byte>)
    ensures FirstScalar(EncodeChar(c) + rest) == Some((c as int, |EncodeChar(c)|))
  {
    ScalarBits(c as int);
    var b := EncodeChar(c) + rest;
    assert b[0] == EncodeChar(c)[0];
    assert |EncodeChar(c)| > 1 ==> b[1] == EncodeChar(c)[1];
    assert |EncodeChar(c)| > 2 ==> b[2] == EncodeChar(c)[2];
    assert |EncodeChar(c)| > 3 ==> b[3] == EncodeChar(c)[3];
  }

  lemma {:induction false} FromUtf8Utf8(s: string)
    ensures FromUtf8(Utf8(s)) == Some(s)
    decreases |s|
  {
    if s != "" {
      FirstOfChar(s[0], Utf8(s[1..]));
      FromUtf8Utf8(s[1..]);
      assert (EncodeChar(s[0]) + Utf8(s[1..]))[|EncodeChar(s[0])|..] == Utf8(s[1..]);
      assert [s[0]] + s[1..] == s;
    }
  }
}
