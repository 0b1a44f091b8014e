// The blob layer: header and body inside the error-correction envelope
// (src/blob.rs).

module Blob {
  import opened Format
  import opened LittleEndian
  import opened Fec

  // The version byte and the little-endian 32-bit plaintext length.
  function Header(version: byte, plaintextLen: nat): (h: Bytes)
    ensures |h| == HEADER_LEN
  {
    [version] + ToBytes(plaintextLen, 4)
  }

  function EncodeBlob(fec: Strategy, version: byte, plaintextLen: nat, body: Bytes): Bytes
    requires fec.encode.requires(Header(version, plaintextLen) + body)
  {
    fec.encode(Header(version, plaintextLen) + body)
  }

  datatype Opened = Opened(version: byte, plaintextLen: nat, body: Bytes)

  function ProtectedLen(plaintextLen: nat): nat {
    HEADER_LEN + NONCE_LEN + plaintextLen + TAG_LEN
  }

  // Reading the error-corrected payload.
  function ParseProtected(protected: Bytes): Res<Opened> {
    if |protected| < HEADER_LEN then Failure(InvalidInput)
    else
      var version := protected[0];
      if version != BLOB_VERSION then Failure(InvalidInput)
      else
        var plaintextLen := FromBytes(protected[1..HEADER_LEN]);
        if plaintextLen > MAX_PLAINTEXT_LEN then Failure(InvalidInput)
        else
          var protectedLen := ProtectedLen(plaintextLen);
          if protectedLen > |protected| then Failure(InvalidInput)
          else Success(Opened(version, plaintextLen, protected[HEADER_LEN..protectedLen]))
  }

  function DecodeBlob(fec: Strategy, received: Bytes): Res<Opened> {
    match fec.validate(received)
    case Failure(e) => Failure(e)
    case Success(recoveredLen) =>
      match fec.decode(received, recoveredLen)
      case Failure(e) => Failure(e)
      case Success(protected) => ParseProtected(protected)
  }

  lemma HeaderRoundTrip(version: byte, n: nat)
    requires n <= MAX_PLAINTEXT_LEN
    ensures Header(version, n)[0] == version && FromBytes(Header(version, n)[1..]) == n
  {
    assert Capacity(4) == 0x1_0000_0000 by {
      assert Capacity(2) == 0x1_0000;
    }
    ValueOfBytes(n, 4);
    assert Header(version, n)[1..] == ToBytes(n, 4);
  }

  // The header byte by byte: the version, then the length, little end first.
  lemma HeaderLayout(version: byte, n: nat)
    ensures Header(version, n)
            == [version, (n % 256) as byte, (n / 0x100 % 256) as byte, (n / 0x1_0000 % 256) as byte,
                (n / 0x100_0000 % 256) as byte]
  {
    assert ToBytes(n / 0x100_0000, 1) == [(n / 0x100_0000 % 256) as byte];
    assert ToBytes(n / 0x1_0000, 2) == [(n / 0x1_0000 % 256) as byte] + ToBytes(n / 0x100_0000, 1);
    assert ToBytes(n / 0x100, 3) == [(n / 0x100 % 256) as byte] + ToBytes(n / 0x1_0000, 2);
    assert ToBytes(n, 4) == [(n % 256) as byte] + ToBytes(n / 0x100, 3);
  }

  // What ParseProtected accepts, exactly: a payload that begins with the header
  // of the length it carries, and is long enough.
  lemma ParseExact(protected: Bytes, o: Opened)
    ensures ParseProtected(protected) == Success(o) <==>
              && o.version == BLOB_VERSION && o.plaintextLen <= MAX_PLAINTEXT_LEN
              && |o.body| == NONCE_LEN + o.plaintextLen + TAG_LEN
              && Header(o.version, o.plaintextLen) + o.body <= protected
  {
    var h := Header(o.version, o.plaintextLen);
    if ParseProtected(protected) == Success(o) {
      BytesOfValue(protected[1..HEADER_LEN]);
      assert protected[..HEADER_LEN] == [protected[0]] + protected[1..HEADER_LEN] == h;
      assert h + o.body == protected[..ProtectedLen(o.plaintextLen)];
    }
    if o.version == BLOB_VERSION && o.plaintextLen <= MAX_PLAINTEXT_LEN && h + o.body <= protected
       && |o.body| == NONCE_LEN + o.plaintextLen + TAG_LEN {
      HeaderRoundTrip(o.version, o.plaintextLen);
      assert protected[1..HEADER_LEN] == (h + o.body)[1..HEADER_LEN] == h[1..];
      assert protected[HEADER_LEN..ProtectedLen(o.plaintextLen)] == (h + o.body)[HEADER_LEN..] == o.body;
    }
  }

  // Any lawful strategy carries header and body through.
  lemma BlobRoundTrip(fec: Strategy, n: nat, body: Bytes)
    requires LawfulStrategy(fec) && n <= MAX_PLAINTEXT_LEN && |body| == NONCE_LEN + n + TAG_LEN
    ensures |EncodeBlob(fec, BLOB_VERSION, n, body)| <= MAX_BLOB_LEN
    ensures DecodeBlob(fec, EncodeBlob(fec, BLOB_VERSION, n, body)) == Success(Opened(BLOB_VERSION, n, body))
  {
    var protected := Header(BLOB_VERSION, n) + body;
    assert LawAt(fec, protected);
    var blob := fec.encode(protected);
    var r := fec.decode(blob, fec.validate(blob).value).value;
    assert protected == r[..|protected|];
    ParseExact(r, Opened(BLOB_VERSION, n, body));
  }

  // A blob of any other version travels as well, and is refused for it.
  lemma {:induction false} OtherVersionRefused(fec: Strategy, version: byte, n: nat, body: Bytes)
    requires LawfulStrategy(fec) && version != BLOB_VERSION && HEADER_LEN + |body| <= PROTECTED_MAX
    ensures DecodeBlob(fec, EncodeBlob(fec, version, n, body)) == Failure(InvalidInput)
  {
    var protected := Header(version, n) + body;
    assert LawAt(fec, protected);
    var blob := fec.encode(protected);
    var r := fec.decode(blob, fec.validate(blob).value).value;
    assert r[0] == r[..|protected|][0] == version;
  }

  // Whatever is received, and whatever the strategy does with it, an accepted
  // blob has a body of exactly the length its header announces.
  lemma AcceptedBodyLength(fec: Strategy, received: Bytes)
    requires DecodeBlob(fec, received).Success?
    ensures var o := DecodeBlob(fec, received).value;
            && o.version == BLOB_VERSION && o.plaintextLen <= MAX_PLAINTEXT_LEN
            && |o.body| == NONCE_LEN + o.plaintextLen + TAG_LEN
  {
  }

  // What a payload must begin with to open as o.
  ghost predicate Carries(protected: Bytes, o: Opened) {
    && o.version == BLOB_VERSION && o.plaintextLen <= MAX_PLAINTEXT_LEN
    && |o.body| == NONCE_LEN + o.plaintextLen + TAG_LEN
    && Header(o.version, o.plaintextLen) + o.body <= protected
  }

  // Reading any received blob: the gate's and the decoder's errors come through as
  // they are; a decoded payload opens exactly as what it carries, and one that
  // carries nothing is an input error.
  lemma {:induction false} DecodeBlobExact(fec: Strategy, received: Bytes)
    ensures fec.validate(received).Failure? ==> DecodeBlob(fec, received) == Failure(fec.validate(received).error)
    ensures fec.validate(received).Success? ==>
              var r := fec.decode(received, fec.validate(received).value);
              && (r.Failure? ==> DecodeBlob(fec, received) == Failure(r.error))
              && (r.Success? ==> forall o :: DecodeBlob(fec, received) == Success(o) <==> Carries(r.value, o))
              && (r.Success? && DecodeBlob(fec, received).Failure? ==>
                    DecodeBlob(fec, received) == Failure(InvalidInput))
  {
    if fec.validate(received).Success? {
      var r := fec.decode(received, fec.validate(received).value);
      if r.Success? {
        forall o ensures DecodeBlob(fec, received) == Success(o) <==> Carries(r.value, o) {
          ParseExact(r.value, o);
        }
      }
    }
  }

  lemma BlobErrors(fec: Strategy, received: Bytes, sound: Bytes -> bool)
    requires NamesErrors(fec, sound)
    ensures DecodeBlob(fec, received).Failure? ==>
              || DecodeBlob(fec, received).error == InvalidInput
              || (DecodeBlob(fec, received).error == ErrorCorrection && sound(received))
  {
  }
}
