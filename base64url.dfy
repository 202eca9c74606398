/**
 * External selectors: 16-byte UUIDs written with the URL- and filename-safe
 * base64 alphabet of section 5 of RFC 4648, without '=' padding.
 *
 * The codec has two layers: bytes are regrouped into 6-bit values
 * (ToSextets / FromSextets, integer arithmetic only), and each 6-bit value is
 * written as one alphabet character (ToSymbols / ToValues).
 */
module Base64Url {
  import opened Results

  newtype byte = x: int | 0 <= x < 256

  /** A 6-bit value, the unit one base64 character carries. */
  type Sextet = v: int | 0 <= v < 64

  /** The raw bytes of a UUID. */
  type Selector = s: seq<byte> | |s| == 16 witness seq(16, _ => 0 as byte)

  /** The 64 characters of the RFC 4648 section 5 alphabet. */
  predicate IsSymbol(c: char) {
    ('A' <= c <= 'Z') || ('a' <= c <= 'z') || ('0' <= c <= '9') || c == '-' || c == '_'
  }

  predicate AllSymbols(t: string) {
    forall i :: 0 <= i < |t| ==> IsSymbol(t[i])
  }

  /** Value of an alphabet character. */
  function SymbolValue(c: char): Sextet
    requires IsSymbol(c)
  {
    if 'A' <= c <= 'Z' then c as int - 'A' as int
    else if 'a' <= c <= 'z' then c as int - 'a' as int + 26
    else if '0' <= c <= '9' then c as int - '0' as int + 52
    else if c == '-' then 62
    else 63
  }

  /** Alphabet character of a 6-bit value: the inverse of SymbolValue. */
  function Symbol(v: Sextet): (c: char)
    ensures IsSymbol(c) && SymbolValue(c) == v
  {
    if v < 26 then ('A' as int + v) as char
    else if v < 52 then ('a' as int + v - 26) as char
    else if v < 62 then ('0' as int + v - 52) as char
    else if v == 62 then '-'
    else '_'
  }

  /** Every alphabet character is the symbol of its value. */
  lemma SymbolOfValue(c: char)
    requires IsSymbol(c)
    ensures Symbol(SymbolValue(c)) == c
  {
  }

  function ToSymbols(vs: seq<Sextet>): (t: string)
    ensures |t| == |vs| && AllSymbols(t)
  {
    seq(|vs|, i requires 0 <= i < |vs| => Symbol(vs[i]))
  }

  function ToValues(t: string): (vs: seq<Sextet>)
    requires AllSymbols(t)
    ensures |vs| == |t|
  {
    seq(|t|, i requires 0 <= i < |t| => SymbolValue(t[i]))
  }

  lemma ValuesOfSymbols(vs: seq<Sextet>)
    ensures ToValues(ToSymbols(vs)) == vs
  {
  }

  lemma SymbolsOfValues(t: string)
    requires AllSymbols(t)
    ensures ToSymbols(ToValues(t)) == t
  {
    forall i | 0 <= i < |t| ensures ToSymbols(ToValues(t))[i] == t[i] {
      SymbolOfValue(t[i]);
    }
  }

  /** Number of 6-bit values (characters) the unpadded encoding of n bytes has. */
  function EncodedLength(n: nat): nat {
    n / 3 * 4 + (if n % 3 == 0 then 0 else n % 3 + 1)
  }

  /** Number of bytes that n 6-bit values decode to (n % 4 != 1). */
  function DecodedLength(n: nat): nat {
    n / 4 * 3 + (if n % 4 == 0 then 0 else n % 4 - 1)
  }

  /** Three bytes cut into four 6-bit values, high bits first. */
  function Split(g: seq<byte>): (q: seq<Sextet>)
    requires |g| == 3
    ensures |q| == 4
  {
    var x, y, z := g[0] as int, g[1] as int, g[2] as int;
    [x / 4, x % 4 * 16 + y / 16, y % 16 * 4 + z / 64, z % 64]
  }

  /** Four 6-bit values joined into three bytes. */
  function Join(q: seq<Sextet>): (g: seq<byte>)
    requires |q| == 4
    ensures |g| == 3
  {
    var v0, v1, v2, v3 := q[0] as int, q[1] as int, q[2] as int, q[3] as int;
    [(v0 * 4 + v1 / 16) as byte, (v1 % 16 * 16 + v2 / 4) as byte, (v2 % 4 * 64 + v3) as byte]
  }

  /**
   * A final group of one or two bytes, padded with zero bits: it keeps only
   * the values that carry its bits (two for one byte, three for two).
   */
  function SplitTail(bs: seq<byte>): (q: seq<Sextet>)
    requires |bs| < 3
    ensures |q| == (if |bs| == 0 then 0 else |bs| + 1)
  {
    if |bs| == 2 then Split(bs + [0])[..3]
    else if |bs| == 1 then Split(bs + [0, 0])[..2]
    else []
  }

  /** A final group of two or three values joined into one or two bytes; its spare low bits are dropped. */
  function JoinTail(q: seq<Sextet>): (bs: seq<byte>)
    requires |q| < 4 && |q| != 1
    ensures |bs| == (if |q| == 0 then 0 else |q| - 1)
  {
    if |q| == 3 then Join(q + [0])[..2]
    else if |q| == 2 then Join(q + [0, 0])[..1]
    else []
  }

  /** Bytes cut into 6-bit values, three bytes to four values. */
  function ToSextets(bs: seq<byte>): (vs: seq<Sextet>)
    ensures |vs| % 4 != 1
    decreases |bs|
  {
    if |bs| >= 3 then Split(bs[..3]) + ToSextets(bs[3..]) else SplitTail(bs)
  }

  /**
   * 6-bit values joined back into bytes. A final group of two or three values
   * carries bits below its last byte; like Python's decoder, the model drops
   * them instead of rejecting the text.
   */
  function FromSextets(vs: seq<Sextet>): (bs: seq<byte>)
    requires |vs| % 4 != 1
    decreases |vs|
  {
    if |vs| >= 4 then Join(vs[..4]) + FromSextets(vs[4..]) else JoinTail(vs)
  }

  lemma {:induction false} EncodedLengthOf(bs: seq<byte>)
    ensures |ToSextets(bs)| == EncodedLength(|bs|)
    decreases |bs|
  {
    if |bs| >= 3 {
      EncodedLengthOf(bs[3..]);
    }
  }

  lemma {:induction false} DecodedLengthOf(vs: seq<Sextet>)
    requires |vs| % 4 != 1
    ensures |FromSextets(vs)| == DecodedLength(|vs|)
    decreases |vs|
  {
    if |vs| >= 4 {
      DecodedLengthOf(vs[4..]);
    }
  }

  /** Unpadded base64url encoding of a byte string (Django's urlsafe_base64_encode). */
  function Encode(bs: seq<byte>): (t: string)
    ensures |t| == EncodedLength(|bs|) && AllSymbols(t)
  {
    EncodedLengthOf(bs);
    ToSymbols(ToSextets(bs))
  }

  /**
   * urlsafe_base64_decode restricted to texts over the alphabet: a length one
   * more than a multiple of four is an error, as in Python. Unlike Python,
   * which drops characters outside the alphabet, the model rejects them.
   */
  function Decode(t: string): (r: Option<seq<byte>>)
    ensures r.Some? ==> |r.value| == DecodedLength(|t|)
  {
    if AllSymbols(t) && |t| % 4 != 1 then
      DecodedLengthOf(ToValues(t));
      Some(FromSextets(ToValues(t)))
    else None
  }

  /** uuid.UUID(bytes=urlsafe_base64_decode(token)): fails unless exactly 16 bytes come out. */
  function DecodeSelector(t: string): (r: Option<Selector>)
    ensures r.Some? ==> Decode(t) == Some(r.value)
  {
    match Decode(t)
    case Some(bs) => if |bs| == 16 then Some(bs) else None
    case None => None
  }

  /** urlsafe_base64_encode(selector.bytes): a 22-character token that names the selector again. */
  function EncodeSelector(s: Selector): (t: string)
    ensures |t| == 22 && AllSymbols(t)
    ensures DecodeSelector(t) == Some(s)
  {
    RoundTrip(s);
    Encode(s)
  }

  /** The 6-bit values of three bytes join back into those bytes. */
  lemma JoinSplit(g: seq<byte>)
    requires |g| == 3
    ensures Join(Split(g)) == g
  {
    var x, y, z := g[0] as int, g[1] as int, g[2] as int;
    var q := Split(g);
    var v1, v2 := x % 4 * 16 + y / 16, y % 16 * 4 + z / 64;
    assert q[0] as int == x / 4 && q[1] as int == v1 && q[2] as int == v2 && q[3] as int == z % 64;
    assert v1 / 16 == x % 4 && v1 % 16 == y / 16;
    assert v2 / 4 == y % 16 && v2 % 4 == z / 64;
    var r := Join(q);
    assert r[0] as int == x && r[1] as int == y && r[2] as int == z;
  }

  /** A final group of one or two bytes survives splitting and joining. */
  lemma JoinSplitTail(bs: seq<byte>)
    requires |bs| < 3
    ensures JoinTail(SplitTail(bs)) == bs
  {
    if |bs| == 2 {
      var g := bs + [0];
      JoinSplit(g);
      assert Split(g)[..3] + [0] == Split(g);
      assert g[..2] == bs;
    } else if |bs| == 1 {
      var g := bs + [0, 0];
      JoinSplit(g);
      assert Split(g)[..2] + [0, 0] == Split(g);
      assert g[..1] == bs;
    }
  }

  /** Joining the 6-bit values of a byte string gives the bytes back. */
  lemma {:induction false} SextetsRoundTrip(bs: seq<byte>)
    ensures FromSextets(ToSextets(bs)) == bs
    decreases |bs|
  {
    if |bs| >= 3 {
      var vs := ToSextets(bs);
      assert vs[..4] == Split(bs[..3]) && vs[4..] == ToSextets(bs[3..]);
      JoinSplit(bs[..3]);
      SextetsRoundTrip(bs[3..]);
      assert bs == bs[..3] + bs[3..];
    } else {
      JoinSplitTail(bs);
    }
  }

  /** Decoding undoes encoding, for byte strings of every length. */
  lemma RoundTrip(bs: seq<byte>)
    ensures Decode(Encode(bs)) == Some(bs)
  {
    SextetsRoundTrip(bs);
    ValuesOfSymbols(ToSextets(bs));
  }

  /**
   * A text is canonical when the bits its last 6-bit value carries below the
   * last byte are zero: two spare bits after three values, four after two.
   */
  predicate Canonical(vs: seq<Sextet>) {
    (|vs| % 4 == 2 ==> vs[|vs| - 1] % 16 == 0) &&
    (|vs| % 4 == 3 ==> vs[|vs| - 1] % 4 == 0)
  }

  /** Joining four 6-bit values into three bytes and splitting them again gives the values back. */
  lemma SplitJoin(q: seq<Sextet>)
    requires |q| == 4
    ensures Split(Join(q)) == q
  {
    var v0, v1, v2, v3 := q[0] as int, q[1] as int, q[2] as int, q[3] as int;
    var a, b, c := v0 * 4 + v1 / 16, v1 % 16 * 16 + v2 / 4, v2 % 4 * 64 + v3;
    var g := Join(q);
    assert g[0] as int == a && g[1] as int == b && g[2] as int == c;
    assert a / 4 == v0 && a % 4 == v1 / 16;
    assert b / 16 == v1 % 16 && b % 16 == v2 / 4;
    assert c / 64 == v2 % 4 && c % 64 == v3;
    var r := Split(g);
    assert r[0] == q[0] && r[1] == q[1] && r[2] == q[2] && r[3] == q[3];
  }

  /** Three values keep their first two and lose the low two bits of the third. */
  lemma SplitJoinThree(q: seq<Sextet>)
    requires |q| == 3
    ensures SplitTail(JoinTail(q)) == q <==> q[2] % 4 == 0
  {
    var v0, v1, v2 := q[0] as int, q[1] as int, q[2] as int;
    var a, b := v0 * 4 + v1 / 16, v1 % 16 * 16 + v2 / 4;
    var g := JoinTail(q) + [0];
    assert g[0] as int == a && g[1] as int == b && g[2] as int == 0;
    assert a / 4 == v0 && a % 4 == v1 / 16;
    assert b / 16 == v1 % 16 && b % 16 == v2 / 4;
    var r := SplitTail(JoinTail(q));
    assert r == Split(g)[..3];
    assert r[0] == q[0] && r[1] == q[1] && r[2] == v2 / 4 * 4;
    if v2 % 4 == 0 {
      assert r == q;
    }
  }

  /** Two values keep the first and lose the low four bits of the second. */
  lemma SplitJoinTwo(q: seq<Sextet>)
    requires |q| == 2
    ensures SplitTail(JoinTail(q)) == q <==> q[1] % 16 == 0
  {
    var v0, v1 := q[0] as int, q[1] as int;
    var a := v0 * 4 + v1 / 16;
    var g := JoinTail(q) + [0, 0];
    assert g[0] as int == a && g[1] as int == 0 && g[2] as int == 0;
    assert a / 4 == v0 && a % 4 == v1 / 16;
    var r := SplitTail(JoinTail(q));
    assert r == Split(g)[..2];
    assert r[0] == q[0] && r[1] == v1 / 16 * 16;
    if v1 % 16 == 0 {
      assert r == q;
    }
  }

  /** Dropping a full leading group does not change whether a text is canonical. */
  lemma CanonicalDrop(vs: seq<Sextet>)
    requires |vs| >= 4
    ensures Canonical(vs) <==> Canonical(vs[4..])
  {
    if |vs| % 4 != 0 {
      assert vs[|vs| - 1] == vs[4..][|vs| - 5];
    }
  }

  /**
   * Splitting decoded bytes into 6-bit values gives the values back exactly
   * when they are canonical.
   */
  lemma {:induction false} SextetsReencode(vs: seq<Sextet>)
    requires |vs| % 4 != 1
    ensures ToSextets(FromSextets(vs)) == vs <==> Canonical(vs)
    decreases |vs|
  {
    var bs := FromSextets(vs);
    if |vs| >= 4 {
      var g, rest := vs[..4], vs[4..];
      assert bs[..3] == Join(g) && bs[3..] == FromSextets(rest);
      SplitJoin(g);
      SextetsReencode(rest);
      CanonicalDrop(vs);
      var e := ToSextets(bs);
      assert e == g + ToSextets(FromSextets(rest));
      assert vs == g + rest;
      if e == vs {
        assert ToSextets(FromSextets(rest)) == e[4..];
      }
    } else if |vs| == 3 {
      SplitJoinThree(vs);
    } else if |vs| == 2 {
      SplitJoinTwo(vs);
    }
  }

  /**
   * Encoding undoes decoding exactly on canonical tokens: a token is the
   * encoding of what it decodes to just when its spare trailing bits are zero.
   */
  lemma Reencode(t: string)
    requires Decode(t).Some?
    ensures Encode(Decode(t).value) == t <==> Canonical(ToValues(t))
  {
    var vs := ToValues(t);
    SextetsReencode(vs);
    SymbolsOfValues(t);
    if Encode(Decode(t).value) == t {
      ValuesOfSymbols(ToSextets(FromSextets(vs)));
    }
  }

  /**
   * Each selector has one canonical token: re-encoding an accepted token
   * gives it back exactly when its last character carries no spare bits.
   */
  lemma SelectorToken(t: string, s: Selector)
    requires DecodeSelector(t) == Some(s)
    ensures EncodeSelector(s) == t <==> SymbolValue(t[21]) % 16 == 0
  {
    Reencode(t);
  }

  /** A token is a selector exactly when it is 22 alphabet characters. */
  lemma SelectorAccepted(t: string)
    ensures DecodeSelector(t).Some? <==> |t| == 22 && AllSymbols(t)
  {
  }
}
