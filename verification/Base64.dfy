/** `base64_encode`, against the decoder of section 4 of RFC 4648. */
module Base64 {
  import opened Basics
  import opened Text

  /** The alphabet: A-Z, a-z, 0-9, "+" and "/". */
  function Char(i: nat): char
    requires i < 64
  {
    if i < 26 then ('A' as int + i) as char
    else if i < 52 then ('a' as int + i - 26) as char
    else if i < 62 then ('0' as int + i - 52) as char
    else if i == 62 then '+' else '/'
  }

  /** The 24-bit group of up to three bytes, padded with zero bytes. */
  function Triple(chunk: Bytes): (t: nat)
    requires 1 <= |chunk| <= 3
    ensures t < 0x100_0000
  {
    var b0: int := chunk[0];
    var b1: int := if |chunk| > 1 then chunk[1] else 0;
    var b2: int := if |chunk| > 2 then chunk[2] else 0;
    b0 * 0x1_0000 + b1 * 0x100 + b2
  }

  function Quantum(chunk: Bytes): (q: string)
    requires 1 <= |chunk| <= 3
    ensures |q| == 4
  {
    var t := Triple(chunk);
    [Char(t / 0x4_0000), Char(t / 0x1000 % 64),
     if |chunk| > 1 then Char(t / 64 % 64) else '=',
     if |chunk| > 2 then Char(t % 64) else '=']
  }

  function Encode(data: Bytes): string {
    if data == [] then ""
    else if |data| <= 3 then Quantum(data)
    else Quantum(data[..3]) + Encode(data[3..])
  }

  /** One turn of the `base64_encode` loop. */
  method PushQuantum(result: string, chunk: Bytes) returns (r: string)
    requires 1 <= |chunk| <= 3
    ensures r == result + Quantum(chunk)
  {
    var b0: int := chunk[0];
    var b1: int := if |chunk| > 1 then chunk[1] else 0;
    var b2: int := if |chunk| > 2 then chunk[2] else 0;
    var triple := b0 * 0x1_0000 + b1 * 0x100 + b2;
    var c0, c1 := Char(triple / 0x4_0000 % 64), Char(triple / 0x1000 % 64);
    var c2 := if |chunk| > 1 then Char(triple / 64 % 64) else '=';
    var c3 := if |chunk| > 2 then Char(triple % 64) else '=';
    assert Quantum(chunk) == [c0, c1, c2, c3] by {
      assert triple == Triple(chunk) && triple / 0x4_0000 % 64 == triple / 0x4_0000;
    }
    r := result + [c0] + [c1] + [c2] + [c3];
    PushFour(result, c0, c1, c2, c3);
  }

  lemma PushFour(s: string, a: char, b: char, c: char, d: char)
    ensures s + [a] + [b] + [c] + [d] == s + [a, b, c, d]
  {
  }

  /** `base64_encode` as the source runs it, chunk by chunk. */
  method Base64Encode(data: Bytes) returns (result: string)
    ensures result == Encode(data)
  {
    result := "";
    var at := 0;
    while at < |data|
      invariant 0 <= at <= |data|
      invariant result + Encode(data[at..]) == Encode(data)
    {
      var next := Min(at + 3, |data|);
      assert Encode(data[at..]) == Quantum(data[at..next]) + Encode(data[next..]) by {
        EncodeUnfolds(data[at..]);
        assert data[at..][..next - at] == data[at..next] && data[at..][next - at..] == data[next..];
      }
      Regroup(result, Quantum(data[at..next]), Encode(data[next..]));
      result := PushQuantum(result, data[at..next]);
      at := next;
    }
  }

  lemma EncodeUnfolds(data: Bytes)
    requires data != []
    ensures var n := Min(3, |data|); Encode(data) == Quantum(data[..n]) + Encode(data[n..])
  {
    if |data| <= 3 {
      assert data[..|data|] == data && data[|data|..] == [];
    }
  }

  // ---------------------------------------------------------------- the standard decoder

  /** The value of an alphabet character (table 1 of RFC 4648). */
  function Value(c: char): (v: Option<nat>)
    ensures v.Some? ==> v.value < 64
  {
    if 'A' <= c <= 'Z' then Some(c as int - 'A' as int)
    else if 'a' <= c <= 'z' then Some(c as int - 'a' as int + 26)
    else if '0' <= c <= '9' then Some(c as int - '0' as int + 52)
    else if c == '+' then Some(62)
    else if c == '/' then Some(63)
    else None
  }

  function DecodeFull(q: string): Option<Bytes>
    requires |q| == 4
  {
    var a, b, c, d := Value(q[0]), Value(q[1]), Value(q[2]), Value(q[3]);
    if a.None? || b.None? || c.None? || d.None? then None
    else
      var t := a.value * 0x4_0000 + b.value * 0x1000 + c.value * 64 + d.value;
      Some([t / 0x1_0000, t / 0x100 % 256, t % 256])
  }

  /** The last quantum: one or two padding characters, with zero bits under them. */
  function DecodeLast(q: string): Option<Bytes>
    requires |q| == 4
  {
    if q[3] != '=' then DecodeFull(q)
    else if q[2] == '=' then
      var a, b := Value(q[0]), Value(q[1]);
      if a.None? || b.None? || b.value % 16 != 0 then None
      else Some([a.value * 4 + b.value / 16])
    else
      var a, b, c := Value(q[0]), Value(q[1]), Value(q[2]);
      if a.None? || b.None? || c.None? || c.value % 4 != 0 then None
      else
        var t := a.value * 1024 + b.value * 16 + c.value / 4;
        Some([t / 256, t % 256])
  }

  /** Strict decoding: whole quanta, padding only in the last one, nothing else. */
  function Decode(s: string): Option<Bytes> {
    if s == "" then Some([])
    else if |s| < 4 then None
    else if |s| == 4 then DecodeLast(s)
    else
      match DecodeFull(s[..4])
      case None => None
      case Some(head) =>
        match Decode(s[4..])
        case None => None
        case Some(tail) => Some(head + tail)
  }

  lemma ValueOfChar(i: nat)
    requires i < 64
    ensures Value(Char(i)) == Some(i) && Char(i) != '='
  {
  }

  lemma NonNegativeProduct(k: int, d: int)
    requires k >= 0 && d >= 0
    ensures k * d >= 0
  {
  }

  /** Multiples of `d` lie at least `d` away from zero. */
  lemma MultipleIsFar(k: int, d: int)
    requires d > 0
    ensures (k >= 1 ==> k * d >= d) && (k <= -1 ==> k * d <= -d)
  {
    if k >= 1 {
      NonNegativeProduct(k - 1, d);
      assert (k - 1) * d == k * d - d;
    } else if k <= -1 {
      NonNegativeProduct(-k - 1, d);
      assert (-k - 1) * d == -(k * d) - d;
    }
  }

  lemma Distribute(q: int, k: int, d: int)
    ensures (q - k) * d == q * d - k * d
  {
  }

  /** Quotient and remainder are what their sum says. */
  lemma DivMod(q: int, r: int, d: int)
    requires 0 <= r < d
    ensures (q * d + r) / d == q && (q * d + r) % d == r
  {
    var n := q * d;
    Unique(q, r, (n + r) / d, (n + r) % d, d);
  }

  lemma Unique(q: int, r: int, k: int, m: int, d: int)
    requires 0 <= r < d && 0 <= m < d && q * d + r == k * d + m
    ensures q == k && r == m
  {
    Distribute(q, k, d);
    MultipleIsFar(q - k, d);
  }

  lemma SixBitGroups(t: nat)
    requires t < 0x100_0000
    ensures t / 0x4_0000 * 0x4_0000 + t / 0x1000 % 64 * 0x1000 + t / 64 % 64 * 64 + t % 64 == t
  {
    var a, d := t / 64, t % 64;
    var b, c := a / 64, a % 64;
    assert t / 0x1000 == b by { DivMod(b, c * 64 + d, 0x1000); }
    assert t / 0x4_0000 == b / 64 by { DivMod(b / 64, b % 64 * 0x1000 + c * 64 + d, 0x4_0000); }
  }

  lemma OneByteGroups(b0: int)
    requires 0 <= b0 < 256
    ensures
      var t := b0 * 0x1_0000;
      t / 0x4_0000 == b0 / 4 && t / 0x1000 % 64 == b0 % 4 * 16
  {
    var t, m, k := b0 * 0x1_0000, b0 / 4, b0 % 4;
    assert t / 0x4_0000 == m by { DivMod(m, k * 0x1_0000, 0x4_0000); }
    assert t / 0x1000 == m * 64 + k * 16 by { DivMod(m * 64 + k * 16, 0, 0x1000); }
    DivMod(m, k * 16, 64);
  }

  lemma OneByteValues(b0: int)
    requires 0 <= b0 < 256
    ensures b0 % 4 * 16 % 16 == 0 && b0 / 4 * 4 + b0 % 4 * 16 / 16 == b0
  {
    DivMod(b0 % 4, 0, 16);
  }

  lemma TwoByteGroups(b0: int, b1: int)
    requires 0 <= b0 < 256 && 0 <= b1 < 256
    ensures
      var t, n := b0 * 0x1_0000 + b1 * 0x100, b0 * 256 + b1;
      t / 0x4_0000 == n / 1024 && t / 0x1000 % 64 == n / 16 % 64 && t / 64 % 64 == n % 16 * 4
  {
    var t, n := b0 * 0x1_0000 + b1 * 0x100, b0 * 256 + b1;
    var m, k := n / 16, n % 16;
    var c, l := m / 64, m % 64;
    assert t / 0x1000 == m by { DivMod(m, k * 0x100, 0x1000); }
    assert t / 64 == m * 64 + k * 4 by { DivMod(m * 64 + k * 4, 0, 64); }
    assert t / 64 % 64 == k * 4 by { DivMod(m, k * 4, 64); }
    assert t / 0x4_0000 == c by { DivMod(c, l * 0x1000 + k * 0x100, 0x4_0000); }
    assert n / 1024 == c by { DivMod(c, l * 16 + k, 1024); }
  }

  lemma ThreeBytes(b0: int, b1: int, b2: int)
    requires 0 <= b0 < 256 && 0 <= b1 < 256 && 0 <= b2 < 256
    ensures
      var t := b0 * 0x1_0000 + b1 * 0x100 + b2;
      t / 0x1_0000 == b0 && t / 0x100 % 256 == b1 && t % 256 == b2
  {
    var t := b0 * 0x1_0000 + b1 * 0x100 + b2;
    assert t / 0x1_0000 == b0 by { DivMod(b0, b1 * 0x100 + b2, 0x1_0000); }
    assert t / 0x100 == b0 * 256 + b1 && t % 256 == b2 by { DivMod(b0 * 256 + b1, b2, 256); }
    DivMod(b0, b1, 256);
  }

  lemma FullQuantumDecodes(chunk: Bytes)
    requires |chunk| == 3
    ensures DecodeFull(Quantum(chunk)) == Some(chunk)
  {
    var t, q := Triple(chunk), Quantum(chunk);
    var v0, v1, v2, v3 := t / 0x4_0000, t / 0x1000 % 64, t / 64 % 64, t % 64;
    ValueOfChar(v0);
    ValueOfChar(v1);
    ValueOfChar(v2);
    ValueOfChar(v3);
    SixBitGroups(t);
    ThreeBytes(chunk[0], chunk[1], chunk[2]);
    assert v0 * 0x4_0000 + v1 * 0x1000 + v2 * 64 + v3 == t;
    assert DecodeFull(q) == Some([t / 0x1_0000, t / 0x100 % 256, t % 256]);
    assert chunk == [chunk[0], chunk[1], chunk[2]];
  }

  lemma OneByteQuantumDecodes(chunk: Bytes)
    requires |chunk| == 1
    ensures DecodeLast(Quantum(chunk)) == Some(chunk)
  {
    var b0: int, q := chunk[0], Quantum(chunk);
    assert q[0] == Char(b0 / 4) && q[1] == Char(b0 % 4 * 16) && q[2] == q[3] == '=' by { OneByteGroups(b0); }
    ValueOfChar(b0 / 4);
    ValueOfChar(b0 % 4 * 16);
    OneByteValues(b0);
    assert chunk == [b0];
  }

  lemma TwoByteQuantum(chunk: Bytes, b0: int, b1: int)
    requires |chunk| == 2 && chunk[0] == b0 && chunk[1] == b1
    ensures
      var n := b0 * 256 + b1;
      n / 1024 < 64 && Quantum(chunk) == [Char(n / 1024), Char(n / 16 % 64), Char(n % 16 * 4), '=']
  {
    TwoByteGroups(b0, b1);
  }

  lemma TwoByteDecodes(v0: nat, v1: nat, v2: nat, b0: byte, b1: byte)
    requires v0 < 64 && v1 < 64 && v2 < 64 && v2 % 4 == 0 && v0 * 1024 + v1 * 16 + v2 / 4 == b0 * 256 + b1
    ensures DecodeLast([Char(v0), Char(v1), Char(v2), '=']) == Some([b0, b1])
  {
    DivMod(b0, b1, 256);
    ValueOfChar(v0);
    ValueOfChar(v1);
    ValueOfChar(v2);
  }

  lemma TwoByteQuantumDecodes(chunk: Bytes)
    requires |chunk| == 2
    ensures DecodeLast(Quantum(chunk)) == Some(chunk)
  {
    var b0: int, b1: int := chunk[0], chunk[1];
    var n := b0 * 256 + b1;
    TwoByteQuantum(chunk, b0, b1);
    TwoByteValues(b0, b1);
    TwoByteDecodes(n / 1024, n / 16 % 64, n % 16 * 4, b0, b1);
    assert chunk == [b0, b1];
  }

  lemma TwoByteValues(b0: int, b1: int)
    requires 0 <= b0 < 256 && 0 <= b1 < 256
    ensures
      var n := b0 * 256 + b1;
      n % 16 * 4 % 4 == 0 && n / 1024 * 1024 + n / 16 % 64 * 16 + n % 16 * 4 / 4 == n
  {
    var n := b0 * 256 + b1;
    var m, k := n / 16, n % 16;
    assert n / 1024 == m / 64 by { DivMod(m / 64, m % 64 * 16 + k, 1024); }
    assert k * 4 / 4 == k && k * 4 % 4 == 0 by { DivMod(k, 0, 4); }
  }

  lemma QuantumDecodes(chunk: Bytes)
    requires 1 <= |chunk| <= 3
    ensures DecodeLast(Quantum(chunk)) == Some(chunk)
  {
    if |chunk| == 1 {
      OneByteQuantumDecodes(chunk);
    } else if |chunk| == 2 {
      TwoByteQuantumDecodes(chunk);
    } else {
      FullQuantumDecodes(chunk);
      ValueOfChar(Triple(chunk) % 64);
    }
  }

  /** The standard decoder inverts the encoder on every byte string. */
  lemma {:induction false} DecodeUndoesEncode(data: Bytes)
    ensures Decode(Encode(data)) == Some(data)
  {
    if data != [] {
      if |data| <= 3 {
        QuantumDecodes(data);
      } else {
        var s := Encode(data);
        FullQuantumDecodes(data[..3]);
        DecodeUndoesEncode(data[3..]);
        EncodedLength(data[3..]);
        assert s[..4] == Quantum(data[..3]) && s[4..] == Encode(data[3..]);
        assert data == data[..3] + data[3..];
      }
    }
  }

  /** The output has four characters for each started group of three bytes. */
  lemma {:induction false} EncodedLength(data: Bytes)
    ensures |Encode(data)| == 4 * ((|data| + 2) / 3)
  {
    if |data| > 3 {
      EncodedLength(data[3..]);
      assert (|data| + 2) / 3 == 1 + (|data| - 1) / 3;
    }
  }

  lemma QuantumPadding(chunk: Bytes)
    requires 1 <= |chunk| <= 3
    ensures Quantum(chunk)[0] != '=' && Quantum(chunk)[1] != '='
    ensures Quantum(chunk)[2] == '=' <==> |chunk| == 1
    ensures Quantum(chunk)[3] == '=' <==> |chunk| < 3
  {
  }

  predicate IsPadding(bytes: nat, length: nat, i: nat) {
    (i == length - 1 && bytes % 3 != 0) || (i == length - 2 && bytes % 3 == 1)
  }

  lemma EncodedAt(data: Bytes, i: nat)
    requires |data| > 3 && i < |Encode(data)|
    ensures |Encode(data)| == 4 + |Encode(data[3..])|
    ensures Encode(data)[i] == if i < 4 then Quantum(data[..3])[i] else Encode(data[3..])[i - 4]
    ensures |Encode(data[3..])| >= 4
  {
  }

  lemma PaddingShift(bytes: nat, length: nat, i: nat)
    requires bytes >= 3 && length >= 8 && i < length
    ensures IsPadding(bytes, length, i) <==> i >= 4 && IsPadding(bytes - 3, length - 4, i - 4)
  {
  }

  /** Padding stands only at the end: two characters, one or none, as the length modulo three says. */
  lemma {:induction false} PaddingOnlyAtEnd(data: Bytes, i: nat)
    requires i < |Encode(data)|
    ensures Encode(data)[i] == '=' <==> IsPadding(|data|, |Encode(data)|, i)
  {
    if |data| <= 3 {
      QuantumPadding(data);
    } else {
      QuantumPadding(data[..3]);
      EncodedAt(data, i);
      PaddingShift(|data|, |Encode(data)|, i);
      if i >= 4 {
        PaddingOnlyAtEnd(data[3..], i - 4);
      }
    }
  }
}
