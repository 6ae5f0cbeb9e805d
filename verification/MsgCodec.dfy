/**
 proto_msg_codec/inc/proto_msg_codec.h: the wire format
   | total length (4) | checksum (4) | passback (4) | message id (4) | body |
 with all integers big-endian.  Passback and message id are kept as raw 32-bit patterns.
 */
module MsgCodec {
  import opened Prelude
  import opened Crc32
  import opened FastCrc32
  import opened CrcBurst

  const LEN_FIELD: nat := 4
  const CHECKSUM_FIELD: nat := 4
  const MIN_TOTAL_MSG_LEN: nat := 12
  const MIN_DATA_LEN: nat := 16
  const WORD_LIMIT: nat := 0x1_0000_0000

  datatype MsgHead = MsgHead(passback: bv32, msgId: bv32)
  datatype Msg = Msg(head: MsgHead, body: seq<bv8>)

  datatype CodecCtx = CodecCtx(maxBodyLen: nat, doChecksum: bool)

  // ---------------------------------------------------------------------------
  // Big-endian fields
  // ---------------------------------------------------------------------------

  /** htonl of a 32-bit pattern. */
  function PutWord(w: bv32): (s: seq<bv8>)
    ensures |s| == 4
  {
    [((w >> 24) & 0xFF) as bv8, ((w >> 16) & 0xFF) as bv8, ((w >> 8) & 0xFF) as bv8, (w & 0xFF) as bv8]
  }

  /** ntohl of the first four bytes. */
  function GetWord(s: seq<bv8>): bv32
    requires |s| >= 4
  {
    ((s[0] as bv32) << 24) | ((s[1] as bv32) << 16) | ((s[2] as bv32) << 8) | (s[3] as bv32)
  }

  lemma GetPutWord(w: bv32)
    ensures GetWord(PutWord(w)) == w
  {
  }

  lemma PutGetWord(a: bv8, b: bv8, c: bv8, d: bv8)
    ensures PutWord(GetWord([a, b, c, d])) == [a, b, c, d]
  {
  }

  /** The number that four bytes make, the first of them counting most. */
  lemma GetWordNumber(s: seq<bv8>)
    requires |s| >= 4
    ensures GetWord(s) as nat ==
            s[0] as nat * 0x100_0000 + s[1] as nat * 0x1_0000 + s[2] as nat * 0x100 + s[3] as nat
  {
    WordNumber(s[0], s[1], s[2], s[3]);
  }

  lemma WordNumber(a: bv8, b: bv8, c: bv8, d: bv8)
    ensures (((a as bv32) << 24) | ((b as bv32) << 16) | ((c as bv32) << 8) | (d as bv32)) as nat ==
            a as nat * 0x100_0000 + b as nat * 0x1_0000 + c as nat * 0x100 + d as nat
  {
  }

  lemma PutWordNumber(w: bv32)
    ensures var s := PutWord(w);
            w as nat == s[0] as nat * 0x100_0000 + s[1] as nat * 0x1_0000 + s[2] as nat * 0x100 + s[3] as nat
  {
    GetPutWord(w);
    GetWordNumber(PutWord(w));
  }

  /** htonl of a length: only the low 32 bits reach the wire. */
  function PutLen(n: nat): (s: seq<bv8>)
    ensures |s| == 4
  {
    [((n / 0x100_0000) % 256) as bv8, ((n / 0x1_0000) % 256) as bv8, ((n / 0x100) % 256) as bv8, (n % 256) as bv8]
  }

  /** ntohl of the length field, zero-extended. */
  function GetLen(s: seq<bv8>): nat
    requires |s| >= 4
  {
    (s[0] as nat) * 0x100_0000 + (s[1] as nat) * 0x1_0000 + (s[2] as nat) * 0x100 + (s[3] as nat)
  }

  lemma Successor(w: bv8)
    requires w != 0xFF
    ensures (w + 1) as nat == w as nat + 1
  {
  }

  lemma LargestByte()
    ensures (0xFF as bv8) as nat == 255
  {
  }

  lemma {:induction false} ByteWithValue(n: nat) returns (w: bv8)
    requires n < 256
    ensures w as nat == n
  {
    if n == 0 {
      w := 0;
    } else {
      w := ByteWithValue(n - 1);
      LargestByte();
      Successor(w);
      w := w + 1;
    }
  }

  lemma ByteBack(w: bv8)
    ensures (w as nat) as bv8 == w
  {
  }

  lemma ByteValue(n: nat)
    requires n < 256
    ensures (n as bv8) as nat == n
  {
    var w := ByteWithValue(n);
    ByteBack(w);
  }

  lemma LenDigits(n: nat)
    ensures ((n / 0x100_0000) % 256) * 0x100_0000 + ((n / 0x1_0000) % 256) * 0x1_0000
            + ((n / 0x100) % 256) * 0x100 + n % 256 == n % WORD_LIMIT
  {
    var a, b, c, e := n / 0x100, n / 0x1_0000, n / 0x100_0000, n / WORD_LIMIT;
    DigitUp(n, 0x100);
    DigitUp(n, 0x1_0000);
    DigitUp(n, 0x100_0000);
    assert n == 256 * a + n % 256 && a == 256 * b + a % 256 && b == 256 * c + b % 256 && c == 256 * e + c % 256;
  }

  lemma DigitUp(n: nat, d: nat)
    requires d == 0x100 || d == 0x1_0000 || d == 0x100_0000
    ensures (n / d) / 256 == n / (d * 256)
  {
  }

  lemma GetPutLen(n: nat)
    ensures GetLen(PutLen(n)) == n % WORD_LIMIT
  {
    ByteValue((n / 0x100_0000) % 256);
    ByteValue((n / 0x1_0000) % 256);
    ByteValue((n / 0x100) % 256);
    ByteValue(n % 256);
    LenDigits(n);
  }

  // ---------------------------------------------------------------------------
  // Frames
  // ---------------------------------------------------------------------------

  /** Everything the checksum covers. */
  function Payload(m: Msg): (s: seq<bv8>)
    ensures |s| == 8 + |m.body|
  {
    PutWord(m.head.passback) + PutWord(m.head.msgId) + m.body
  }

  function FrameChecksum(doChecksum: bool, payload: seq<bv8>): bv32 {
    if doChecksum then Checksum(payload, 0) else 0
  }

  /** A frame with true length field and `stored` in its checksum field. */
  function FrameWith(stored: bv32, m: Msg): (s: seq<bv8>)
    ensures |s| == MIN_DATA_LEN + |m.body|
  {
    PutLen(MIN_TOTAL_MSG_LEN + |m.body|) + PutWord(stored) + Payload(m)
  }

  /** The frame the encoder makes. */
  function Frame(doChecksum: bool, m: Msg): (s: seq<bv8>)
    ensures |s| == MIN_DATA_LEN + |m.body|
  {
    FrameWith(FrameChecksum(doChecksum, Payload(m)), m)
  }

  /** What stands at every place of a frame, all numbers with their most significant byte first. */
  lemma FrameBytes(stored: bv32, m: Msg)
    ensures var f, n := FrameWith(stored, m), |m.body|;
            && f[0] as nat * 0x100_0000 + f[1] as nat * 0x1_0000 + f[2] as nat * 0x100 + f[3] as nat
               == (12 + n) % 0x1_0000_0000
            && f[4] as nat * 0x100_0000 + f[5] as nat * 0x1_0000 + f[6] as nat * 0x100 + f[7] as nat == stored as nat
            && f[8] as nat * 0x100_0000 + f[9] as nat * 0x1_0000 + f[10] as nat * 0x100 + f[11] as nat
               == m.head.passback as nat
            && f[12] as nat * 0x100_0000 + f[13] as nat * 0x1_0000 + f[14] as nat * 0x100 + f[15] as nat
               == m.head.msgId as nat
            && |f| == 16 + n && f[16..] == m.body
  {
    var len, sum := PutLen(MIN_TOTAL_MSG_LEN + |m.body|), PutWord(stored);
    var p, q := PutWord(m.head.passback), PutWord(m.head.msgId);
    GetPutLen(MIN_TOTAL_MSG_LEN + |m.body|);
    LenNumber(len);
    PutWordNumber(stored);
    PutWordNumber(m.head.passback);
    PutWordNumber(m.head.msgId);
    hide PutWord, PutLen, GetLen;
    var f := FrameWith(stored, m);
    assert f == len + sum + (p + q + m.body);
    assert f[0] == len[0] && f[1] == len[1] && f[2] == len[2] && f[3] == len[3];
    assert f[4] == sum[0] && f[5] == sum[1] && f[6] == sum[2] && f[7] == sum[3];
    assert f[8] == p[0] && f[9] == p[1] && f[10] == p[2] && f[11] == p[3];
    assert f[12] == q[0] && f[13] == q[1] && f[14] == q[2] && f[15] == q[3];
  }

  lemma LenNumber(s: seq<bv8>)
    requires |s| >= 4
    ensures GetLen(s) == s[0] as nat * 0x100_0000 + s[1] as nat * 0x1_0000 + s[2] as nat * 0x100 + s[3] as nat
  {
  }

  datatype Whole = WholeMsg(total: nat) | InvalidMsgLen | NotAWholeMsg

  /** Looks at the first four bytes whatever `data` holds, hence the precondition. */
  function IsWholeMsg(ctx: CodecCtx, data: seq<bv8>): Whole
    requires |data| >= LEN_FIELD
  {
    var total := GetLen(data);
    if total < MIN_TOTAL_MSG_LEN || total > MIN_TOTAL_MSG_LEN + ctx.maxBodyLen then InvalidMsgLen
    else if |data| < LEN_FIELD + total then NotAWholeMsg
    else WholeMsg(total)
  }

  datatype Decoded = Decoded(msg: Msg) | ChecksumMismatch

  /** `buf` is the frame without its length field. */
  function DecodeMsg(doChecksum: bool, buf: seq<bv8>): Decoded
    requires |buf| >= MIN_TOTAL_MSG_LEN
  {
    if doChecksum && GetWord(buf) != Checksum(buf[CHECKSUM_FIELD..], 0) then ChecksumMismatch
    else Decoded(Msg(MsgHead(GetWord(buf[4..]), GetWord(buf[8..])), buf[MIN_TOTAL_MSG_LEN..]))
  }

  /** Messages the codec promises to carry: within the configured limit and the 32-bit length field. */
  predicate InLimit(ctx: CodecCtx, m: Msg) {
    |m.body| <= ctx.maxBodyLen && MIN_TOTAL_MSG_LEN + |m.body| < WORD_LIMIT
  }

  /** The receiver's first decision, from the first four bytes as a number. */
  lemma IsWholeBytes(ctx: CodecCtx, data: seq<bv8>)
    requires |data| >= 4
    ensures var n := data[0] as nat * 0x100_0000 + data[1] as nat * 0x1_0000 + data[2] as nat * 0x100 + data[3] as nat;
            && (IsWholeMsg(ctx, data).InvalidMsgLen? <==> n < 12 || n > 12 + ctx.maxBodyLen)
            && (IsWholeMsg(ctx, data).NotAWholeMsg? <==> 12 <= n <= 12 + ctx.maxBodyLen && |data| < 4 + n)
            && (IsWholeMsg(ctx, data).WholeMsg? ==> IsWholeMsg(ctx, data).total == n)
  {
    LenNumber(data);
    WholeByLength(ctx, data, GetLen(data));
    hide GetLen, IsWholeMsg;
  }

  lemma WholeByLength(ctx: CodecCtx, data: seq<bv8>, n: nat)
    requires |data| >= LEN_FIELD && n == GetLen(data)
    ensures IsWholeMsg(ctx, data).InvalidMsgLen? <==> n < 12 || n > 12 + ctx.maxBodyLen
    ensures IsWholeMsg(ctx, data).NotAWholeMsg? <==> 12 <= n <= 12 + ctx.maxBodyLen && |data| < 4 + n
    ensures IsWholeMsg(ctx, data).WholeMsg? ==> IsWholeMsg(ctx, data).total == n
  {
    hide GetLen;
  }

  /** What is decoded, from the bytes behind the length field as numbers. */
  lemma DecodeBytes(doChecksum: bool, buf: seq<bv8>)
    requires |buf| >= 12
    ensures var stored := buf[0] as nat * 0x100_0000 + buf[1] as nat * 0x1_0000 + buf[2] as nat * 0x100 + buf[3] as nat;
            var d := DecodeMsg(doChecksum, buf);
            && (d.ChecksumMismatch? <==> doChecksum && stored != Checksum(buf[4..], 0) as nat)
            && (d.Decoded? ==>
                  && d.msg.head.passback as nat ==
                     buf[4] as nat * 0x100_0000 + buf[5] as nat * 0x1_0000 + buf[6] as nat * 0x100 + buf[7] as nat
                  && d.msg.head.msgId as nat ==
                     buf[8] as nat * 0x100_0000 + buf[9] as nat * 0x1_0000 + buf[10] as nat * 0x100 + buf[11] as nat
                  && d.msg.body == buf[12..])
  {
    hide GetWord, Checksum;
    GetWordNumber(buf);
    GetWordNumber(buf[4..]);
    GetWordNumber(buf[8..]);
    SameNumber(GetWord(buf), Checksum(buf[4..], 0));
  }

  lemma SameNumber(v: bv32, w: bv32)
    ensures v as nat == w as nat <==> v == w
  {
    WordBack(v);
    WordBack(w);
  }

  lemma WordBack(w: bv32)
    ensures (w as nat) as bv32 == w
  {
  }

  lemma GetWordAt(pre: seq<bv8>, w: bv32, post: seq<bv8>)
    ensures GetWord((pre + PutWord(w) + post)[|pre|..]) == w
  {
    var field := (pre + PutWord(w) + post)[|pre|..];
    GetPutWord(w);
    hide PutWord;
    assert field == PutWord(w) + post;
    assert field[0] == PutWord(w)[0] && field[1] == PutWord(w)[1] && field[2] == PutWord(w)[2] &&
           field[3] == PutWord(w)[3];
  }

  lemma FieldsOf(sum: bv32, m: Msg)
    ensures var buf := PutWord(sum) + Payload(m);
            && GetWord(buf) == sum && GetWord(buf[4..]) == m.head.passback && GetWord(buf[8..]) == m.head.msgId
            && buf[CHECKSUM_FIELD..] == Payload(m) && buf[MIN_TOTAL_MSG_LEN..] == m.body
  {
    hide PutWord, GetWord;
    var p, q := PutWord(m.head.passback), PutWord(m.head.msgId);
    var buf := PutWord(sum) + Payload(m);
    assert buf == [] + PutWord(sum) + Payload(m) && buf[0..] == buf;
    GetWordAt([], sum, Payload(m));
    assert buf == PutWord(sum) + p + (q + m.body);
    GetWordAt(PutWord(sum), m.head.passback, q + m.body);
    assert buf == (PutWord(sum) + p) + q + m.body;
    GetWordAt(PutWord(sum) + p, m.head.msgId, m.body);
  }

  /** Whatever the checksum field holds, the message is decoded, unless checksums are on and the
      field is not the checksum of the payload. */
  lemma DecodeFrameWith(doChecksum: bool, stored: bv32, m: Msg)
    ensures DecodeMsg(doChecksum, FrameWith(stored, m)[LEN_FIELD..]) ==
            if doChecksum && stored != Checksum(Payload(m), 0) then ChecksumMismatch else Decoded(m)
  {
    hide PutWord, GetWord, PutLen, Checksum, Payload;
    assert FrameWith(stored, m)[LEN_FIELD..] == PutWord(stored) + Payload(m);
    FieldsOf(stored, m);
  }

  /** decode(encode(m)) == m, with checksums on or off. */
  lemma DecodeEncode(doChecksum: bool, m: Msg)
    ensures DecodeMsg(doChecksum, Frame(doChecksum, m)[LEN_FIELD..]) == Decoded(m)
  {
    hide FrameWith, DecodeMsg, Checksum;
    DecodeFrameWith(doChecksum, FrameChecksum(doChecksum, Payload(m)), m);
  }

  /** A frame at the front of a buffer is recognised as soon as, and only when, it is all there. */
  lemma WholeFrame(ctx: CodecCtx, stored: bv32, m: Msg, rest: seq<bv8>, n: nat)
    requires InLimit(ctx, m) && LEN_FIELD <= n <= |FrameWith(stored, m) + rest|
    ensures IsWholeMsg(ctx, (FrameWith(stored, m) + rest)[..n]) ==
            if n < |FrameWith(stored, m)| then NotAWholeMsg else WholeMsg(MIN_TOTAL_MSG_LEN + |m.body|)
  {
    hide PutLen, PutWord, GetLen, Payload;
    var data := (FrameWith(stored, m) + rest)[..n];
    var len := PutLen(MIN_TOTAL_MSG_LEN + |m.body|);
    GetPutLen(MIN_TOTAL_MSG_LEN + |m.body|);
    assert data[..4] == len == len[..4];
    SameLen(data, len);
  }

  /** The receiver recognises a lone frame exactly when the message is within the limit and its length
      fits the 32-bit field; a longer body is truncated in the field and the frame is lost. */
  lemma RecognisedIffInLimit(ctx: CodecCtx, m: Msg)
    ensures IsWholeMsg(ctx, Frame(ctx.doChecksum, m)) == WholeMsg(MIN_TOTAL_MSG_LEN + |m.body|) <==> InLimit(ctx, m)
  {
    hide PutLen, PutWord, GetLen, Payload;
    var data, len := Frame(ctx.doChecksum, m), PutLen(MIN_TOTAL_MSG_LEN + |m.body|);
    GetPutLen(MIN_TOTAL_MSG_LEN + |m.body|);
    assert data[..4] == len == len[..4];
    SameLen(data, len);
  }

  lemma SameLen(s: seq<bv8>, t: seq<bv8>)
    requires |s| >= 4 && |t| >= 4 && s[..4] == t[..4]
    ensures GetLen(s) == GetLen(t)
  {
    assert forall i :: 0 <= i < 4 ==> s[i] == s[..4][i] && t[i] == t[..4][i];
  }

  lemma PutGetWordSeq(s: seq<bv8>)
    requires |s| >= 4
    ensures PutWord(GetWord(s)) == s[..4]
  {
    PutGetWord(s[0], s[1], s[2], s[3]);
    assert s[..4] == [s[0], s[1], s[2], s[3]];
  }

  /** encode(decode(f)) == f: with checksums on no two frames decode alike; with checksums off the
      checksum field is the only thing that is forgotten. */
  lemma EncodeDecode(doChecksum: bool, buf: seq<bv8>)
    requires |buf| >= MIN_TOTAL_MSG_LEN && DecodeMsg(doChecksum, buf).Decoded?
    ensures var m := DecodeMsg(doChecksum, buf).msg;
            && Payload(m) == buf[CHECKSUM_FIELD..]
            && (Frame(doChecksum, m)[LEN_FIELD..] == buf <==> doChecksum || GetWord(buf) == 0)
  {
    hide PutWord, GetWord, PutLen, Checksum;
    var m := DecodeMsg(doChecksum, buf).msg;
    PutGetWordSeq(buf);
    PutGetWordSeq(buf[4..]);
    PutGetWordSeq(buf[8..]);
    assert buf[4..] == buf[4..][..4] + buf[8..][..4] + buf[12..];
    assert buf == buf[..4] + buf[4..];
    var sum := FrameChecksum(doChecksum, Payload(m));
    assert Frame(doChecksum, m)[LEN_FIELD..] == PutWord(sum) + buf[4..];
    GetPutWord(sum);
    if Frame(doChecksum, m)[LEN_FIELD..] == buf {
      assert (PutWord(sum) + buf[4..])[..4] == PutWord(sum);
      PutWordInjective(sum, GetWord(buf));
    }
  }

  lemma PutWordInjective(v: bv32, w: bv32)
    requires PutWord(v) == PutWord(w)
    ensures v == w
  {
    hide PutWord, GetWord;
    GetPutWord(v);
    GetPutWord(w);
  }

  /** With checksums on, any change of the covered bytes within 32 consecutive bits is rejected. */
  lemma BurstRejected(m: Msg, buf: seq<bv8>, start: nat)
    requires |buf| == MIN_TOTAL_MSG_LEN + |m.body|
    requires buf[..CHECKSUM_FIELD] == Frame(true, m)[LEN_FIELD..][..CHECKSUM_FIELD]
    requires DifferWithinBurst(Payload(m), buf[CHECKSUM_FIELD..], start)
    requires buf[CHECKSUM_FIELD..] != Payload(m)
    ensures DecodeMsg(true, buf) == ChecksumMismatch
  {
    hide PutWord, GetWord, PutLen, Checksum, DifferWithinBurst;
    var sum := Checksum(Payload(m), 0);
    BurstDetected(Payload(m), buf[CHECKSUM_FIELD..], start, 0);
    assert buf[..4] == PutWord(sum);
    PutGetWordSeq(buf);
    PutWordInjective(GetWord(buf), sum);
  }

  /** In particular a change of at most four consecutive bytes after the checksum field. */
  lemma FourByteChangeRejected(m: Msg, buf: seq<bv8>, first: nat)
    requires |buf| == MIN_TOTAL_MSG_LEN + |m.body|
    requires buf != Frame(true, m)[LEN_FIELD..] && first >= CHECKSUM_FIELD
    requires forall k :: 0 <= k < |buf| && buf[k] != Frame(true, m)[LEN_FIELD..][k] ==> first <= k < first + 4
    ensures DecodeMsg(true, buf) == ChecksumMismatch
  {
    hide PutWord, GetWord, PutLen, Checksum, DifferWithinBurst;
    var sent := Frame(true, m)[LEN_FIELD..];
    assert sent[CHECKSUM_FIELD..] == Payload(m);
    assert sent == sent[..4] + sent[4..] && buf == buf[..4] + buf[4..];
    assert forall k :: 0 <= k < 4 ==> buf[k] == sent[k];
    assert buf[..4] == sent[..4];
    FourBytesAreABurst(Payload(m), buf[CHECKSUM_FIELD..], first - CHECKSUM_FIELD);
    BurstRejected(m, buf, 8 * (first - CHECKSUM_FIELD));
  }

  // ---------------------------------------------------------------------------
  // The encoder, writing into the caller's buffer
  // ---------------------------------------------------------------------------

  function Splice(s: seq<bv8>, at: nat, bytes: seq<bv8>): (r: seq<bv8>)
    requires at + |bytes| <= |s|
    ensures |r| == |s|
  {
    s[..at] + bytes + s[at + |bytes|..]
  }

  method StoreBytes(data: array<bv8>, at: nat, bytes: seq<bv8>)
    requires at + |bytes| <= data.Length
    modifies data
    ensures data[..] == Splice(old(data[..]), at, bytes)
  {
    for i := 0 to |bytes|
      invariant data[..at] == old(data[..at]) && data[at..at + i] == bytes[..i]
      invariant data[at + i..] == old(data[at + i..])
    {
      data[at + i] := bytes[i];
      assert bytes[..i + 1] == bytes[..i] + [bytes[i]];
      assert data[at..at + i + 1] == data[at..at + i] + [data[at + i]];
      assert old(data[at + i..])[1..] == old(data[at + i + 1..]);
    }
    assert data[..] == data[..at] + data[at..at + |bytes|] + data[at + |bytes|..];
  }

  /** Length, passback, message id and body stored in the order of the source. */
  lemma StoredFields(s: seq<bv8>, len: seq<bv8>, p: seq<bv8>, q: seq<bv8>, body: seq<bv8>)
    requires |len| == |p| == |q| == 4 && |s| >= MIN_DATA_LEN + |body|
    ensures Splice(Splice(Splice(Splice(s, 0, len), 8, p), 12, q), MIN_DATA_LEN, body) ==
            len + s[4..8] + p + q + body + s[MIN_DATA_LEN + |body|..]
  {
    assert Splice(s, 0, len) == len + s[4..];
    assert Splice(len + s[4..], 8, p) == len + s[4..8] + p + s[12..];
    assert Splice(len + s[4..8] + p + s[12..], 12, q) == len + s[4..8] + p + q + s[16..];
  }

  /** A null body leaves the buffer's own bytes in place of the body, and the frame is then the
      frame of those bytes. */
  method StoreFrame(ctx: CodecCtx, data: array<bv8>, head: MsgHead, body: Option<seq<bv8>>, bodyLen: nat)
    returns (len: nat)
    requires body.Some? ==> |body.value| == bodyLen
    requires data.Length >= MIN_DATA_LEN + bodyLen
    modifies data
    ensures len == MIN_DATA_LEN + bodyLen
    ensures var sent := if body.Some? then body.value else old(data[MIN_DATA_LEN..MIN_DATA_LEN + bodyLen]);
            data[..] == Frame(ctx.doChecksum, Msg(head, sent)) + old(data[len..])
  {
    hide PutWord, PutLen, Checksum, Splice, Payload, Frame, FrameChecksum;
    len := MIN_DATA_LEN + bodyLen;
    ghost var s := data[..];
    ghost var m := Msg(head, if body.Some? then body.value else s[MIN_DATA_LEN..len]);
    var lenField, passback, msgId := PutLen(MIN_TOTAL_MSG_LEN + bodyLen), PutWord(head.passback), PutWord(head.msgId);
    StoreBytes(data, 0, lenField);
    StoreBytes(data, 8, passback);
    StoreBytes(data, 12, msgId);
    if body.Some? {
      StoreBytes(data, MIN_DATA_LEN, body.value);
    } else {
      NothingStored(s, lenField, passback, msgId, m.body);
    }
    StoredPayload(s, m);
    var checksum: bv32 := 0;
    if ctx.doChecksum {
      checksum := SliceBy16(data[8..len], 0);
    }
    IsFrameChecksum(ctx.doChecksum, Payload(m), checksum);
    StoredChecksum(lenField, s[4..8], PutWord(checksum), Payload(m) + s[len..]);
    StoreBytes(data, 4, PutWord(checksum));
    FrameAssembled(ctx.doChecksum, m, s[len..]);
  }

  /** The caller's buffer afterwards, byte by byte: numbers stand with their most significant byte first. */
  method EncodeMsg(ctx: CodecCtx, data: array<bv8>, head: MsgHead, body: Option<seq<bv8>>, bodyLen: nat)
    returns (len: nat)
    requires body.Some? ==> |body.value| == bodyLen
    requires data.Length >= 16 + bodyLen
    modifies data
    ensures var sent := if body.Some? then body.value else old(data[16..16 + bodyLen]);
            data[..] == Frame(ctx.doChecksum, Msg(head, sent)) + old(data[16 + bodyLen..])
    ensures len == 16 + bodyLen && data[len..] == old(data[len..])
    ensures data[16..len] == if body.Some? then body.value else old(data[16..16 + bodyLen])
    ensures data[0] as nat * 0x100_0000 + data[1] as nat * 0x1_0000 + data[2] as nat * 0x100 + data[3] as nat
            == (12 + bodyLen) % 0x1_0000_0000
    ensures data[4] as nat * 0x100_0000 + data[5] as nat * 0x1_0000 + data[6] as nat * 0x100 + data[7] as nat
            == if ctx.doChecksum then Checksum(data[8..len], 0) as nat else 0
    ensures data[8] as nat * 0x100_0000 + data[9] as nat * 0x1_0000 + data[10] as nat * 0x100 + data[11] as nat
            == head.passback as nat
    ensures data[12] as nat * 0x100_0000 + data[13] as nat * 0x1_0000 + data[14] as nat * 0x100 + data[15] as nat
            == head.msgId as nat
  {
    hide Frame, Checksum;
    ghost var tail := data[16 + bodyLen..];
    ghost var m := Msg(head, if body.Some? then body.value else data[16..16 + bodyLen]);
    len := StoreFrame(ctx, data, head, body, bodyLen);
    EncodedBytes(ctx.doChecksum, m, tail, data[..]);
    assert data[..][16 + bodyLen..] == data[len..] && data[..][16..len] == data[16..len];
    assert data[..][8..len] == data[8..len];
  }

  /** The bytes of an encoded frame in a buffer. */
  lemma EncodedBytes(doChecksum: bool, m: Msg, tail: seq<bv8>, data: seq<bv8>)
    requires data == Frame(doChecksum, m) + tail
    ensures var n := |m.body|;
            && |data| >= 16 + n && data[16 + n..] == tail && data[16..16 + n] == m.body
            && data[0] as nat * 0x100_0000 + data[1] as nat * 0x1_0000 + data[2] as nat * 0x100 + data[3] as nat
               == (12 + n) % 0x1_0000_0000
            && data[4] as nat * 0x100_0000 + data[5] as nat * 0x1_0000 + data[6] as nat * 0x100 + data[7] as nat
               == (if doChecksum then Checksum(data[8..16 + n], 0) as nat else 0)
            && data[8] as nat * 0x100_0000 + data[9] as nat * 0x1_0000 + data[10] as nat * 0x100 + data[11] as nat
               == m.head.passback as nat
            && data[12] as nat * 0x100_0000 + data[13] as nat * 0x1_0000 + data[14] as nat * 0x100 + data[15] as nat
               == m.head.msgId as nat
  {
    var sum := FrameChecksum(doChecksum, Payload(m));
    FrameBytes(sum, m);
    assert FrameWith(sum, m)[8..] == Payload(m);
    hide PutWord, PutLen, Checksum, Payload, FrameWith;
    InFront(Frame(doChecksum, m), tail);
  }

  /** The bytes of a frame in a buffer that goes on behind it. */
  lemma InFront(f: seq<bv8>, tail: seq<bv8>)
    requires |f| >= 16
    ensures var d := f + tail;
            && d[0] == f[0] && d[1] == f[1] && d[2] == f[2] && d[3] == f[3]
            && d[4] == f[4] && d[5] == f[5] && d[6] == f[6] && d[7] == f[7]
            && d[8] == f[8] && d[9] == f[9] && d[10] == f[10] && d[11] == f[11]
            && d[12] == f[12] && d[13] == f[13] && d[14] == f[14] && d[15] == f[15]
            && d[8..|f|] == f[8..] && d[16..|f|] == f[16..] && d[|f|..] == tail
  {
  }

  lemma StoredPayload(s: seq<bv8>, m: Msg)
    requires |s| >= MIN_DATA_LEN + |m.body|
    ensures var len, tail := PutLen(MIN_TOTAL_MSG_LEN + |m.body|), s[MIN_DATA_LEN + |m.body|..];
            var t := Splice(Splice(Splice(Splice(s, 0, len), 8, PutWord(m.head.passback)), 12,
                PutWord(m.head.msgId)), MIN_DATA_LEN, m.body);
            t == len + s[4..8] + (Payload(m) + tail) && t[8..MIN_DATA_LEN + |m.body|] == Payload(m)
  {
    hide PutWord, PutLen;
    var len, tail := PutLen(MIN_TOTAL_MSG_LEN + |m.body|), s[MIN_DATA_LEN + |m.body|..];
    StoredFields(s, len, PutWord(m.head.passback), PutWord(m.head.msgId), m.body);
    assert (len + s[4..8] + (Payload(m) + tail))[8..MIN_DATA_LEN + |m.body|] == Payload(m);
  }

  lemma IsFrameChecksum(doChecksum: bool, payload: seq<bv8>, checksum: bv32)
    requires checksum == if doChecksum then Checksum(payload, 0) else 0
    ensures checksum == FrameChecksum(doChecksum, payload)
  {
    hide Checksum;
  }

  lemma FrameAssembled(doChecksum: bool, m: Msg, tail: seq<bv8>)
    ensures PutLen(MIN_TOTAL_MSG_LEN + |m.body|) + PutWord(FrameChecksum(doChecksum, Payload(m))) + (Payload(m) + tail)
            == Frame(doChecksum, m) + tail
  {
    hide PutWord, PutLen, FrameChecksum, Payload;
  }

  lemma StoredChecksum(len: seq<bv8>, was: seq<bv8>, sum: seq<bv8>, rest: seq<bv8>)
    requires |len| == |was| == |sum| == 4
    ensures Splice(len + was + rest, 4, sum) == len + sum + rest
  {
  }

  lemma NothingStored(s: seq<bv8>, len: seq<bv8>, p: seq<bv8>, q: seq<bv8>, body: seq<bv8>)
    requires |len| == |p| == |q| == 4 && |s| >= MIN_DATA_LEN + |body| && body == s[MIN_DATA_LEN..MIN_DATA_LEN + |body|]
    ensures var t := Splice(Splice(Splice(s, 0, len), 8, p), 12, q);
            Splice(t, MIN_DATA_LEN, body) == t
  {
    StoredFields(s, len, p, q, []);
    var t := Splice(Splice(Splice(s, 0, len), 8, p), 12, q);
    assert Splice(t, MIN_DATA_LEN, []) == t;
    assert t == len + s[4..8] + p + q + [] + s[MIN_DATA_LEN..];
    assert t[MIN_DATA_LEN..] == s[MIN_DATA_LEN..];
  }
}
