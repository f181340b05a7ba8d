/** RSA exponent decoding of `internal/auth/config/jwks.go`, against section 6.3.1.2 of RFC 7518. */
module JwksExponent {
  import opened Wrappers

  type byte = b: int | 0 <= b < 256

  /** The largest Go `int` on a 64-bit platform. */
  const MAX_INT: nat := 0x7fff_ffff_ffff_ffff

  datatype ExponentError = Overflow | NotPositive

  function Pow256(n: nat): (p: nat)
    ensures p > 0
  {
    if n == 0 then 1 else 256 * Pow256(n - 1)
  }

  /** The unsigned integer a byte string stands for, most significant octet first. */
  function BigEndian(raw: seq<byte>): nat {
    if raw == [] then 0 else raw[0] * Pow256(|raw| - 1) + BigEndian(raw[1..])
  }

  /** The shortest big-endian encoding, which RFC 7518 prescribes. */
  function Encode(n: nat): seq<byte> {
    if n == 0 then [] else Encode(n / 256) + [n % 256]
  }

  lemma {:induction false} BigEndianSnoc(raw: seq<byte>, b: byte)
    ensures BigEndian(raw + [b]) == BigEndian(raw) * 256 + b
  {
    if raw == [] {
      assert Pow256(0) == 1;
      assert (raw + [b])[1..] == [];
    } else {
      assert (raw + [b])[1..] == raw[1..] + [b];
      BigEndianSnoc(raw[1..], b);
      assert Pow256(|raw|) == 256 * Pow256(|raw| - 1);
    }
  }

  lemma {:induction false} PrefixIsSmaller(raw: seq<byte>, i: nat)
    requires i <= |raw|
    ensures BigEndian(raw[..i]) <= BigEndian(raw)
    decreases |raw| - i
  {
    if i == |raw| {
      assert raw[..i] == raw;
    } else {
      assert raw[..i + 1] == raw[..i] + [raw[i]];
      BigEndianSnoc(raw[..i], raw[i]);
      PrefixIsSmaller(raw, i + 1);
    }
  }

  /** The accumulator loop: the guard fires exactly when the whole byte string does not fit. */
  method DecodeExponent(raw: seq<byte>) returns (r: Result<nat, ExponentError>)
    ensures r.Success? <==> 1 <= BigEndian(raw) <= MAX_INT
    ensures r.Success? ==> r.value == BigEndian(raw)
    ensures r == Failure(NotPositive) <==> BigEndian(raw) == 0
    ensures r == Failure(Overflow) <==> BigEndian(raw) > MAX_INT
  {
    var value: nat := 0;
    for i := 0 to |raw|
      invariant value == BigEndian(raw[..i]) <= MAX_INT
    {
      assert raw[..i + 1] == raw[..i] + [raw[i]];
      BigEndianSnoc(raw[..i], raw[i]);
      if value > MAX_INT / 256 {
        PrefixIsSmaller(raw, i + 1);
        return Failure(Overflow);
      }
      value := value * 256 + raw[i];
    }
    assert raw[..|raw|] == raw;
    if value <= 0 {
      return Failure(NotPositive);
    }
    return Success(value);
  }

  lemma {:induction false} EncodeRoundTrip(n: nat)
    ensures BigEndian(Encode(n)) == n
  {
    if n != 0 {
      EncodeRoundTrip(n / 256);
      BigEndianSnoc(Encode(n / 256), n % 256);
    }
  }

  /** Leading zero octets never change what is decoded. */
  lemma {:induction false} LeadingZeros(zeros: nat, raw: seq<byte>)
    ensures BigEndian(seq(zeros, _ => 0) + raw) == BigEndian(raw)
  {
    var padded: seq<byte> := seq(zeros, _ => 0) + raw;
    if zeros == 0 {
      assert padded == raw;
    } else {
      assert padded[1..] == seq(zeros - 1, _ => 0) + raw;
      LeadingZeros(zeros - 1, raw);
    }
  }

  /** Encoding inverts decoding exactly on the byte strings without a leading zero octet. */
  lemma {:induction false} CanonicalIffNoLeadingZero(raw: seq<byte>)
    ensures Encode(BigEndian(raw)) == raw <==> raw == [] || raw[0] != 0
  {
    if raw != [] {
      var front, last := raw[..|raw| - 1], raw[|raw| - 1];
      assert raw == front + [last];
      BigEndianSnoc(front, last);
      CanonicalIffNoLeadingZero(front);
      var v := BigEndian(raw);
      assert v / 256 == BigEndian(front) && v % 256 == last;
      if front == [] {
        assert Encode(0) == [];
      } else {
        assert front[0] == raw[0];
        if raw[0] == 0 && v != 0 {
          assert Encode(v)[..|Encode(v)| - 1] == Encode(v / 256);
          assert raw[..|raw| - 1] == front;
        }
      }
    }
  }
}
