/**
 Opening a TLS CBC record, as `ssl3_get_record` and `dtls1_process_record` do after
 decryption: padding removal, MAC extraction and the MAC itself, each in constant time. The
 three together accept exactly the MAC-then-pad encodings of section 6.2.3 of RFC 5246.
 */
module CbcRecord {
  import opened Bits
  import opened Bytes
  import opened MerkleDamgard
  import opened CbcPadding
  import opened CbcDigest
  import CbcCopyMac

  /** SSL3_RT_MAX_PLAIN_LENGTH and SSL3_RT_MAX_COMPRESSED_LENGTH */
  const MAX_PLAIN: nat := 16384
  const MAX_COMPRESSED: nat := 17408

  /** What one direction of a connection contributes to the MAC. */
  datatype MacContext = MacContext(secret: seq<byte>, sequence: seq<byte>, versionMajor: byte, versionMinor: byte)

  ghost predicate ValidContext<S(!new)>(h: Hash<S>, ctx: MacContext)
  {
    Supported(h) && |ctx.secret| <= 128 && |ctx.sequence| == 8
  }

  /** The 13 bytes that `tls1_mac` puts before the data. */
  function MacHeader(ctx: MacContext, recType: byte, length: nat): (s: seq<byte>)
    requires |ctx.sequence| == 8 && length < 0x1_0000
    ensures |s| == 13
  {
    ctx.sequence + [recType, ctx.versionMajor, ctx.versionMinor, length / 256, length % 256]
  }

  function Mac<S(!new)>(h: Hash<S>, ctx: MacContext, recType: byte, body: seq<byte>): (m: seq<byte>)
    requires ValidContext(h, ctx) && |body| < 0x1_0000
    ensures |m| == h.mdSize
  {
    Hmac(h, ctx.secret, MacHeader(ctx, recType, |body|) + body)
  }

  /** The plaintext a sender encrypts. */
  function Seal<S(!new)>(h: Hash<S>, ctx: MacContext, recType: byte, body: seq<byte>, blockSize: nat): (s: seq<byte>)
    requires ValidContext(h, ctx) && |body| < 0x1_0000 && 1 < blockSize <= 256
  {
    TlsPad(body + Mac(h, ctx, recType, body), blockSize)
  }

  datatype Opened = Rejected | Accepted(body: seq<byte>)

  /** The verdict on a plaintext x whose padding check returned `ret`. */
  function Authenticate<S(!new)>(h: Hash<S>, ctx: MacContext, recType: byte, ret: int, x: seq<byte>): Opened
    requires ValidContext(h, ctx) && h.mdSize <= |x| < 0x1_0000
  {
    var body := x[..|x| - h.mdSize];
    if ret >= 0 && x[|x| - h.mdSize..] == Mac(h, ctx, recType, body) && |body| <= MAX_PLAIN
    then Accepted(body) else Rejected
  }

  /** What a receiver makes of a decrypted plaintext. */
  function Open<S(!new)>(h: Hash<S>, ctx: MacContext, recType: byte, s: seq<byte>): Opened
    requires ValidContext(h, ctx) && |s| < 0x1_0000
  {
    if |s| < h.mdSize + 1 then Rejected
    else
      var (ret, x) := TlsRemoved(s, h.mdSize);
      Authenticate(h, ctx, recType, ret, x)
  }

  /** The receive path. `rec` ends up holding the accepted body. */
  method OpenRecord<S(!new)>(h: Hash<S>, ctx: MacContext, rec: Ssl3Record, explicitIv: bool, blockSize: nat)
    returns (ok: bool)
    requires ValidContext(h, ctx)
    requires rec.Valid() && rec.recType < 256 && blockSize <= 256 && rec.length < 0x1_0000
    modifies rec
    ensures rec.Valid()
    ensures var skip := if explicitIv then blockSize else 0;
      if old(rec.length) < skip then !ok
      else match Open(h, ctx, old(rec.recType), old(rec.Payload())[skip..])
        case Rejected => !ok
        case Accepted(body) => ok && rec.Payload() == body && rec.recType == old(rec.recType)
  {
    var encErr := Tls1CbcRemovePadding(rec, explicitIv, blockSize, h.mdSize);
    if encErr == 0 {
      return false;
    }
    ok := AuthenticateRecord(h, ctx, rec, encErr);
  }

  method AuthenticateRecord<S(!new)>(h: Hash<S>, ctx: MacContext, rec: Ssl3Record, encErr: int)
    returns (ok: bool)
    requires ValidContext(h, ctx)
    requires Unpadded(h, rec)
    modifies rec
    ensures rec.Valid()
    ensures match Authenticate(h, ctx, old(rec.recType) % 256, encErr, old(rec.Payload()))
      case Rejected => !ok
      case Accepted(body) => ok && rec.Payload() == body
    ensures rec.recType == old(rec.recType) % 256
  {
    hide Mac;
    ghost var x := rec.Payload();
    var mac := ExtractMac(h, rec);
    var md := ComputeMac(h, ctx, rec);
    assert rec.Payload() == x[..|x| - h.mdSize];
    ok := encErr >= 0 && md == mac;
    if rec.length > MAX_COMPRESSED + h.mdSize {
      ok := false;
    }
    if rec.length > MAX_PLAIN {
      ok := false;
    }
  }

  /** A record as the padding remover leaves it: the type's upper bits say how many bytes
      behind the payload were removed. */
  ghost predicate Unpadded<S>(h: Hash<S>, rec: Ssl3Record)
    reads rec
  {
    && rec.Valid() && rec.recType / 256 <= 256
    && h.mdSize <= rec.length && rec.length + rec.recType / 256 < 0x1_0000
    && rec.data + rec.length + rec.recType / 256 <= rec.buffer.Length
  }

  method ExtractMac<S(!new)>(h: Hash<S>, rec: Ssl3Record) returns (mac: seq<byte>)
    requires Supported(h) && Unpadded(h, rec)
    ensures mac == rec.Payload()[rec.length - h.mdSize..]
  {
    var origLen := rec.length + rec.recType / 256;
    var macTmp := new byte[64];
    var data := rec.buffer[rec.data..rec.data + origLen];
    CbcCopyMac.Ssl3CbcCopyMac(macTmp, data, rec.length, h.mdSize);
    CbcCopyMac.EvenSizesCancel(data[rec.length - h.mdSize..rec.length]);
    mac := macTmp[..h.mdSize];
    assert rec.Payload() == data[..rec.length];
    assert rec.Payload()[rec.length - h.mdSize..] == data[..rec.length][rec.length - h.mdSize..]
           == data[rec.length - h.mdSize..rec.length];
  }

  /** `rr->length -= mac_size`, then `tls1_mac`. */
  method ComputeMac<S(!new)>(h: Hash<S>, ctx: MacContext, rec: Ssl3Record) returns (md: seq<byte>)
    requires ValidContext(h, ctx) && Unpadded(h, rec)
    modifies rec`length, rec`recType
    ensures rec.Valid() && rec.length == old(rec.length) - h.mdSize && rec.recType == old(rec.recType) % 256
    ensures md == Mac(h, ctx, rec.recType, rec.Payload())
  {
    hide Hmac;
    rec.length := rec.length - h.mdSize;
    var origLen := rec.length + h.mdSize + rec.recType / 256;
    rec.recType := rec.recType % 256;
    var header := MacHeader(ctx, rec.recType, rec.length);
    var data := rec.buffer[rec.data..rec.data + origLen];
    md := DigestRecordTls(h, header, data, rec.length + h.mdSize, ctx.secret);
    assert data[..rec.length] == rec.Payload();
    assert Macced(h, header, data, rec.length + h.mdSize) == header + rec.Payload();
  }

  // ---------- SSLv3 ----------

  /** What `n_ssl3_mac` hashes before the data: secret, first pad, sequence, type and length */
  function Ssl3Header<S>(h: Hash<S>, ctx: MacContext, recType: byte, length: nat): (s: seq<byte>)
    requires |ctx.sequence| == 8 && |ctx.secret| == h.mdSize && length < 0x1_0000
    ensures |s| == h.mdSize + Ssl3PadLength(h) + 11
  {
    ctx.secret + Repeat<byte>(0x36, Ssl3PadLength(h)) + (ctx.sequence + [recType, length / 256, length % 256])
  }

  /** The record MAC of section 5.2.3.1 of RFC 6101 */
  function MacSsl3<S(!new)>(h: Hash<S>, ctx: MacContext, recType: byte, body: seq<byte>): (m: seq<byte>)
    requires ValidContext(h, ctx) && |body| < 0x1_0000
    ensures |m| == h.mdSize
  {
    Ssl3Mac(h, ctx.secret, Ssl3PadLength(h), ctx.sequence + [recType, |body| / 256, |body| % 256] + body)
  }

  /** `n_ssl3_mac` for a record that was decrypted, so that its length is that of whole blocks of
      the cipher, and whose padding was removed or found wrong */
  method ComputeMacSsl3<S(!new)>(h: Hash<S>, ctx: MacContext, rec: Ssl3Record, blockSize: nat) returns (md: seq<byte>)
    requires Ssl3Context(h, ctx) && Unpadded(h, rec)
    requires (blockSize == 8 || blockSize == 16) && (rec.length + rec.recType / 256) % blockSize == 0
    requires rec.recType / 256 <= blockSize
    modifies rec`length, rec`recType
    ensures rec.Valid() && rec.length == old(rec.length) - h.mdSize && rec.recType == old(rec.recType) % 256
    ensures md == MacSsl3(h, ctx, rec.recType, rec.Payload())
  {
    hide Lengths;
    hide Ssl3Header;
    hide MacSsl3;
    hide Digest;
    var origLen := rec.length + rec.recType / 256;
    Ssl3LengthsHold(h, rec.length, origLen, blockSize);
    rec.length := rec.length - h.mdSize;
    rec.recType := rec.recType % 256;
    var header := Ssl3Header(h, ctx, rec.recType, rec.length);
    var data := rec.buffer[rec.data..rec.data + origLen];
    ghost var body := rec.Payload();
    assert data[..rec.length] == body;
    md := DigestRecordSsl3(h, header, data, rec.length + h.mdSize, ctx.secret);
    Ssl3MessageIs(h, ctx, rec.recType, body, data, rec.length + h.mdSize);
  }

  lemma Ssl3LengthsHold<S(!new)>(h: Hash<S>, d: nat, t: nat, blockSize: nat)
    requires Supported(h) && h.mdSize <= 20 && h.mdSize <= d <= t <= d + blockSize && t < 0x1_0000
    requires (blockSize == 8 || blockSize == 16) && t % blockSize == 0
    ensures Lengths(h, h.mdSize + Ssl3PadLength(h) + 11, d, t, true)
  {
  }

  lemma Ssl3MessageIs<S(!new)>(h: Hash<S>, ctx: MacContext, recType: byte, body: seq<byte>, data: seq<byte>, d: nat)
    requires ValidContext(h, ctx) && |ctx.secret| == h.mdSize && |body| < 0x1_0000
    requires h.mdSize <= d <= |data| && data[..d - h.mdSize] == body
    ensures Digest(h, ctx.secret + Repeat<byte>(0x5c, Ssl3PadLength(h)) +
                      Digest(h, Macced(h, Ssl3Header(h, ctx, recType, |body|), data, d)))
            == MacSsl3(h, ctx, recType, body)
  {
    hide Digest;
    assert Macced(h, Ssl3Header(h, ctx, recType, |body|), data, d) ==
      ctx.secret + Repeat<byte>(0x36, Ssl3PadLength(h)) + (ctx.sequence + [recType, |body| / 256, |body| % 256] + body);
  }

  ghost predicate Ssl3Context<S(!new)>(h: Hash<S>, ctx: MacContext)
  {
    ValidContext(h, ctx) && h.mdSize <= 20 && |ctx.secret| == h.mdSize
  }

  /** The verdict on an SSLv3 plaintext x whose padding check returned `ret` */
  function AuthenticateSsl3<S(!new)>(h: Hash<S>, ctx: MacContext, recType: byte, ret: int, x: seq<byte>): Opened
    requires Ssl3Context(h, ctx) && h.mdSize <= |x| < 0x1_0000
  {
    var body := x[..|x| - h.mdSize];
    if ret >= 0 && x[|x| - h.mdSize..] == MacSsl3(h, ctx, recType, body) && |body| <= MAX_PLAIN
    then Accepted(body) else Rejected
  }

  /** What a receiver makes of a decrypted SSLv3 plaintext, which must be whole blocks. */
  function OpenSsl3<S(!new)>(h: Hash<S>, ctx: MacContext, recType: byte, s: seq<byte>, blockSize: nat): Opened
    requires Ssl3Context(h, ctx) && |s| < 0x1_0000 && blockSize > 0
  {
    if |s| % blockSize != 0 || |s| < h.mdSize + 1 then Rejected
    else
      var (ret, x) := Ssl3Removed(s, blockSize, h.mdSize);
      AuthenticateSsl3(h, ctx, recType, ret, x)
  }

  /** The receive path for SSLv3 */
  method OpenRecordSsl3<S(!new)>(h: Hash<S>, ctx: MacContext, rec: Ssl3Record, blockSize: nat) returns (ok: bool)
    requires Ssl3Context(h, ctx) && (blockSize == 8 || blockSize == 16)
    requires rec.Valid() && rec.recType < 256 && rec.length < 0x1_0000
    modifies rec
    ensures rec.Valid()
    ensures match OpenSsl3(h, ctx, old(rec.recType), old(rec.Payload()), blockSize)
      case Rejected => !ok
      case Accepted(body) => ok && rec.Payload() == body && rec.recType == old(rec.recType)
  {
    ghost var s := rec.Payload();
    OpenSsl3Is(h, ctx, rec.recType, s, blockSize);
    hide OpenSsl3;
    hide Ssl3Removed;
    hide AuthenticateSsl3;
    hide Supported;
    if rec.length == 0 || rec.length % blockSize != 0 {
      return false;
    }
    var encErr := Ssl3CbcRemovePadding(rec, blockSize, h.mdSize);
    if encErr == 0 {
      return false;
    }
    ok := AuthenticateRecordSsl3(h, ctx, rec, encErr, blockSize);
  }

  lemma OpenSsl3Is<S(!new)>(h: Hash<S>, ctx: MacContext, recType: byte, s: seq<byte>, blockSize: nat)
    requires Ssl3Context(h, ctx) && |s| < 0x1_0000 && (blockSize == 8 || blockSize == 16)
    ensures h.mdSize <= 64
    ensures s == [] || |s| % blockSize != 0 || |s| < h.mdSize + 1 ==> OpenSsl3(h, ctx, recType, s, blockSize) == Rejected
    ensures |s| % blockSize == 0 && |s| >= h.mdSize + 1 ==>
      var (ret, x) := Ssl3Removed(s, blockSize, h.mdSize);
      && (ret == 1 || ret == -1) && h.mdSize <= |x| <= |s| <= |x| + blockSize
      && OpenSsl3(h, ctx, recType, s, blockSize) == AuthenticateSsl3(h, ctx, recType, ret, x)
  {
    hide AuthenticateSsl3;
    if |s| > h.mdSize {
      Ssl3RemovedBound(s, blockSize, h.mdSize);
    }
  }

  method AuthenticateRecordSsl3<S(!new)>(h: Hash<S>, ctx: MacContext, rec: Ssl3Record, encErr: int, blockSize: nat)
    returns (ok: bool)
    requires Ssl3Context(h, ctx) && Unpadded(h, rec) && (blockSize == 8 || blockSize == 16)
    requires (rec.length + rec.recType / 256) % blockSize == 0 && rec.recType / 256 <= blockSize
    modifies rec
    ensures rec.Valid()
    ensures match AuthenticateSsl3(h, ctx, old(rec.recType) % 256, encErr, old(rec.Payload()))
      case Rejected => !ok
      case Accepted(body) => ok && rec.Payload() == body
    ensures rec.recType == old(rec.recType) % 256
  {
    hide MacSsl3;
    ghost var x := rec.Payload();
    var mac := ExtractMac(h, rec);
    var md := ComputeMacSsl3(h, ctx, rec, blockSize);
    assert rec.Payload() == x[..|x| - h.mdSize];
    ok := encErr >= 0 && md == mac;
    if rec.length > MAX_COMPRESSED + h.mdSize {
      ok := false;
    }
    if rec.length > MAX_PLAIN {
      ok := false;
    }
  }

  lemma Ssl3RemovedBound(s: seq<byte>, blockSize: nat, macSize: nat)
    requires |s| > macSize
    ensures macSize <= |Ssl3Removed(s, blockSize, macSize).1| <= |s|
    ensures |s| <= |Ssl3Removed(s, blockSize, macSize).1| + blockSize
  {
  }

  // ---------- main results ----------

  /** A record is accepted exactly when it is body, MAC of body, and a padding block. */
  lemma OpenIsExact<S(!new)>(h: Hash<S>, ctx: MacContext, recType: byte, s: seq<byte>, body: seq<byte>)
    requires ValidContext(h, ctx) && |s| < 0x1_0000
    ensures Open(h, ctx, recType, s) == Accepted(body) <==>
      |body| <= MAX_PLAIN && exists p :: s == body + Mac(h, ctx, recType, body) + TlsPadding(p)
  {
    if |s| > 0 {
      TlsRemovalIsExact(s, h.mdSize);
      if Open(h, ctx, recType, s) == Accepted(body) {
        var x := TlsRemoved(s, h.mdSize).1;
        TlsPaddingSplit(s, h.mdSize);
        assert x == body + Mac(h, ctx, recType, body);
      }
    }
    if |body| <= MAX_PLAIN && exists p :: s == body + Mac(h, ctx, recType, body) + TlsPadding(p) {
      var p :| s == body + Mac(h, ctx, recType, body) + TlsPadding(p);
      var x := body + Mac(h, ctx, recType, body);
      TlsPaddingUnique(s, h.mdSize, x, p);
      assert x[..|x| - h.mdSize] == body;
    }
  }

  /** An SSLv3 record is accepted exactly when it is whole blocks of body, MAC of body, and at most
      one block of padding of any content that ends in its length. */
  lemma OpenSsl3IsExact<S(!new)>(h: Hash<S>, ctx: MacContext, recType: byte, s: seq<byte>, blockSize: nat, body: seq<byte>)
    requires Ssl3Context(h, ctx) && |s| < 0x1_0000 && blockSize > 0
    ensures OpenSsl3(h, ctx, recType, s, blockSize) == Accepted(body) <==>
      && |body| <= MAX_PLAIN && |s| % blockSize == 0
      && IsSsl3Padded(s, blockSize, h.mdSize, body + MacSsl3(h, ctx, recType, body))
  {
    hide MacSsl3;
    if |s| > 0 {
      Ssl3RemovalIsExact(s, blockSize, h.mdSize);
    }
    if OpenSsl3(h, ctx, recType, s, blockSize) == Accepted(body) {
      var y := Ssl3Removed(s, blockSize, h.mdSize).1;
      Ssl3PaddingSplit(s, blockSize, h.mdSize);
      assert y == body + y[|y| - h.mdSize..];
    }
    if |body| <= MAX_PLAIN && IsSsl3Padded(s, blockSize, h.mdSize, body + MacSsl3(h, ctx, recType, body)) {
      var x := body + MacSsl3(h, ctx, recType, body);
      Ssl3PaddingUnique(s, blockSize, h.mdSize, x);
      assert x[..|x| - h.mdSize] == body;
    }
  }

  /** What is sealed can be opened. */
  lemma SealThenOpen<S(!new)>(h: Hash<S>, ctx: MacContext, recType: byte, body: seq<byte>, blockSize: nat)
    requires ValidContext(h, ctx) && |body| <= MAX_PLAIN && 1 < blockSize <= 256
    ensures |Seal(h, ctx, recType, body, blockSize)| < 0x1_0000
    ensures Open(h, ctx, recType, Seal(h, ctx, recType, body, blockSize)) == Accepted(body)
  {
    var x := body + Mac(h, ctx, recType, body);
    var p: byte := blockSize - |x| % blockSize - 1;
    assert Seal(h, ctx, recType, body, blockSize) == x + TlsPadding(p);
    OpenIsExact(h, ctx, recType, Seal(h, ctx, recType, body, blockSize), body);
  }
}
