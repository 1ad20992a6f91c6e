/**
  The TP-Link Smart Home wire protocol: an autokey XOR cipher over bytes
  (initial key 171, each cipher byte keys the next one) behind a 4-byte
  big-endian length header, the reply read loop that decides when a reply
  is complete, and the discovery datagram (the frame without its header).
  Sockets, timeouts and JSON text are outside the model: a reply is the
  sequence of chunks `recv` would return.
 */
module SmartHomeProtocol {
  import opened Outcomes

  /** A byte as Python's `bytes` and `ord` see it. */
  newtype byte = x: int | 0 <= x < 256

  const InitializationVector: byte := 171
  const DefaultPort: nat := 9999
  const DefaultTimeout: nat := 5
  const HeaderSize: nat := 4
  /** One past the largest length `struct.pack(">I", n)` accepts. */
  const LengthLimit: nat := 0x1_0000_0000

  function ByteValue(b: byte): nat {
    b as nat
  }

  /** The big-endian value of four bytes. */
  function BigEndianValue(b: seq<byte>): nat
    requires |b| == 4
  {
    ((ByteValue(b[0]) * 256 + ByteValue(b[1])) * 256 + ByteValue(b[2])) * 256 + ByteValue(b[3])
  }

  /** `struct.pack(">I", n)`: four big-endian bytes, or `struct.error` when
      `n` does not fit in 32 bits. */
  function PackLength(n: nat): (r: Result<seq<byte>>)
    ensures r.Ok? <==> n < LengthLimit
    ensures r.Ok? ==> |r.value| == 4 && BigEndianValue(r.value) == n
    ensures r.Fail? ==> r.error == StructError
  {
    if n < LengthLimit then
      var q1 := n / 256;
      var q2 := q1 / 256;
      Decompose(n);
      var bytes := [ToByte(q2 / 256), ToByte(q2 % 256), ToByte(q1 % 256), ToByte(n % 256)];
      Ok(bytes)
    else
      Fail(StructError)
  }

  function ToByte(x: nat): (b: byte)
    requires x < 256
    ensures ByteValue(b) == x
  {
    x as byte
  }

  /** Base-256 digits of a 32-bit value. */
  lemma Decompose(n: nat)
    requires n < LengthLimit
    ensures var q1 := n / 256; var q2 := q1 / 256;
      q2 / 256 < 256 && n == ((q2 / 256 * 256 + q2 % 256) * 256 + q1 % 256) * 256 + n % 256
  {
    var q1 := n / 256;
    var q2 := q1 / 256;
    assert n == q1 * 256 + n % 256;
    assert q1 == q2 * 256 + q1 % 256;
    assert q2 == (q2 / 256) * 256 + q2 % 256;
  }

  /** `struct.unpack(">I", chunk[0:4])[0]`: the slice holds fewer than four
      bytes when the chunk is short, and then unpacking fails. */
  function UnpackLength(chunk: seq<byte>): (r: Result<nat>)
    ensures r.Ok? <==> |chunk| >= 4
    ensures r.Ok? ==> r.value == BigEndianValue(chunk[..4]) && r.value < LengthLimit
  {
    if |chunk| >= 4 then Ok(BigEndianValue(chunk[..4])) else Fail(StructError)
  }

  function Pow2(n: nat): (p: nat)
    ensures p >= 1
  {
    if n == 0 then 1 else 2 * Pow2(n - 1)
  }

  /** Exclusive or of the low `n` bits of `a` and `b`, lowest bit first. */
  function XorBits(a: nat, b: nat, n: nat): (r: nat)
    ensures r < Pow2(n)
  {
    if n == 0 then 0 else 2 * XorBits(a / 2, b / 2, n - 1) + (a % 2 + b % 2) % 2
  }

  /** Bitwise exclusive or of two bytes (`^`). */
  function Xor(a: byte, b: byte): byte {
    assert Pow2(8) == 256;
    XorBits(a as nat, b as nat, 8) as byte
  }

  /** The key that enciphers (or deciphers) byte `i`: the initial key for the
      first byte, then the previous cipher byte. */
  function KeyAt(cipher: seq<byte>, i: nat, key: byte): byte
    requires i <= |cipher|
  {
    if i == 0 then key else cipher[i - 1]
  }

  /** The body of `encrypt`: each cipher byte is the key XOR the plain byte
      and becomes the next key. */
  function Encipher(plain: seq<byte>, key: byte): (cipher: seq<byte>)
    ensures |cipher| == |plain|
    ensures forall i {:trigger plain[i]} :: 0 <= i < |plain| ==> cipher[i] == Xor(KeyAt(cipher, i, key), plain[i])
    decreases |plain|
  {
    if |plain| == 0 then []
    else
      var c := Xor(key, plain[0]);
      [c] + Encipher(plain[1..], c)
  }

  /** `decrypt`: each plain byte is the key XOR the cipher byte, and the
      cipher byte becomes the next key. */
  function Decipher(cipher: seq<byte>, key: byte): (plain: seq<byte>)
    ensures |plain| == |cipher|
    ensures forall i {:trigger plain[i]} :: 0 <= i < |cipher| ==> plain[i] == Xor(KeyAt(cipher, i, key), cipher[i])
    decreases |cipher|
  {
    if |cipher| == 0 then []
    else [Xor(key, cipher[0])] + Decipher(cipher[1..], cipher[0])
  }

  /** `encrypt(request)`: the 4-byte big-endian length of the plaintext
      followed by its autokey ciphertext. */
  function Encrypt(request: seq<byte>): (r: Result<seq<byte>>)
    ensures r.Ok? <==> |request| < LengthLimit
    ensures r.Ok? ==> |r.value| == HeaderSize + |request|
    ensures r.Ok? ==> BigEndianValue(r.value[..HeaderSize]) == |request|
    ensures r.Ok? ==> forall i :: 0 <= i < |request| ==>
      r.value[HeaderSize + i] == Xor(KeyAt(r.value[HeaderSize..], i, InitializationVector), request[i])
  {
    var header :- PackLength(|request|);
    var frame := header + Encipher(request, InitializationVector);
    assert frame[..HeaderSize] == header;
    assert frame[HeaderSize..] == Encipher(request, InitializationVector);
    Ok(frame)
  }

  /** `decrypt(ciphertext)`: the plaintext that `encrypt` would have
      enciphered into exactly these bytes. */
  function Decrypt(ciphertext: seq<byte>): (plain: seq<byte>)
    ensures |plain| == |ciphertext|
    ensures Encipher(plain, InitializationVector) == ciphertext
  {
    EncipherDecipher(ciphertext, InitializationVector);
    Decipher(ciphertext, InitializationVector)
  }

  /** Deciphering undoes enciphering under the same initial key. */
  lemma DecipherEncipher(plain: seq<byte>, key: byte)
    ensures Decipher(Encipher(plain, key), key) == plain
  {
    var c := Encipher(plain, key);
    var p := Decipher(c, key);
    forall i | 0 <= i < |plain| ensures p[i] == plain[i] {
      assert c[i] == Xor(KeyAt(c, i, key), plain[i]);
      XorCancel(KeyAt(c, i, key), plain[i]);
    }
  }

  /** Enciphering undoes deciphering: the cipher is a bijection on byte
      strings of each length. */
  lemma {:induction false} EncipherDecipher(cipher: seq<byte>, key: byte)
    ensures Encipher(Decipher(cipher, key), key) == cipher
    decreases |cipher|
  {
    if |cipher| > 0 {
      var c0 := cipher[0];
      var p := Decipher(cipher, key);
      XorCancel(key, c0);
      assert p[0] == Xor(key, c0);
      assert p[1..] == Decipher(cipher[1..], c0);
      EncipherDecipher(cipher[1..], c0);
      assert cipher == [c0] + cipher[1..];
    }
  }

  /** XOR with the same key twice is the identity. */
  lemma XorCancel(k: byte, b: byte)
    ensures Xor(k, Xor(k, b)) == b
  {
    assert Pow2(8) == 256;
    XorBitsCancel(k as nat, b as nat, 8);
  }

  lemma {:induction false} XorBitsCancel(k: nat, b: nat, n: nat)
    requires b < Pow2(n)
    ensures XorBits(k, XorBits(k, b, n), n) == b
  {
    if n > 0 {
      var high := XorBits(k / 2, b / 2, n - 1);
      var bit := (k % 2 + b % 2) % 2;
      var r := XorBits(k, b, n);
      HalfOf(high, bit);
      HalfOf(b / 2, b % 2);
      HalfBound(b, n);
      XorBitsCancel(k / 2, b / 2, n - 1);
      BitCancel(k % 2, b % 2);
    }
  }

  lemma HalfBound(b: nat, n: nat)
    requires 0 < n && b < Pow2(n)
    ensures b / 2 < Pow2(n - 1)
  {
  }

  lemma HalfOf(high: nat, bit: nat)
    requires bit < 2
    ensures (2 * high + bit) / 2 == high && (2 * high + bit) % 2 == bit
  {
  }

  lemma BitCancel(x: nat, y: nat)
    requires x < 2 && y < 2
    ensures (x + (x + y) % 2) % 2 == y
  {
  }

  /** `decrypt(encrypt(s)[4:]) == s` for every request that can be framed. */
  lemma EncryptRoundTrip(request: seq<byte>)
    requires |request| < LengthLimit
    ensures Encrypt(request).Ok?
    ensures Decrypt(Encrypt(request).value[HeaderSize..]) == request
  {
    var frame := Encrypt(request).value;
    assert frame[HeaderSize..] == Encipher(request, InitializationVector);
    DecipherEncipher(request, InitializationVector);
  }

  /** The discovery broadcast: `encrypt(req)[4:]`, the frame without its
      length header. */
  function DiscoveryDatagram(request: seq<byte>): (r: Result<seq<byte>>)
    ensures r.Ok? <==> |request| < LengthLimit
    ensures r.Ok? ==> Decrypt(r.value) == request
  {
    var frame :- Encrypt(request);
    EncryptRoundTrip(request);
    Ok(frame[HeaderSize..])
  }

  /** All chunks received so far, in order. */
  function Concat(chunks: seq<seq<byte>>): (all: seq<byte>)
    decreases |chunks|
  {
    if |chunks| == 0 then [] else chunks[0] + Concat(chunks[1..])
  }

  /** The read loop of `query` stops after the `k`-th chunk when the header
      announced a positive length and the buffer holds at least that many
      bytes after the header, or when that chunk was empty (end of stream). */
  predicate StopsAfter(length: nat, chunks: seq<seq<byte>>, k: nat)
    requires 1 <= k <= |chunks|
  {
    (length > 0 && |Concat(chunks[..k])| >= length + HeaderSize) || |chunks[k - 1]| == 0
  }

  /** `k` is the first chunk after which the loop stops. */
  predicate FirstStop(length: nat, chunks: seq<seq<byte>>, k: nat) {
    && 1 <= k <= |chunks|
    && StopsAfter(length, chunks, k)
    && forall j :: 1 <= j < k ==> !StopsAfter(length, chunks, j)
  }

  /** One turn of the read loop and the turns after it: `length` is -1 until
      the first chunk has been seen, `buffer` holds what was received so far.
      Running out of chunks means the peer went silent: the socket times out. */
  function Receive(length: int, buffer: seq<byte>, chunks: seq<seq<byte>>): (r: Result<seq<byte>>)
    decreases |chunks|
  {
    if |chunks| == 0 then Fail(TimedOut)
    else
      var chunk := chunks[0];
      var len :- if length == -1 then UnpackLength(chunk) else Ok(length);
      var buf := buffer + chunk;
      if (len > 0 && |buf| >= len + HeaderSize) || |chunk| == 0 then Ok(buf)
      else Receive(len, buf, chunks[1..])
  }

  /** The read loop of `query`: on success the buffer is exactly the chunks up
      to the first one after which the loop stops; it fails with
      `struct.error` when the first chunk is shorter than the header and
      times out when no chunk ends the loop. */
  function ReadReply(chunks: seq<seq<byte>>): (r: Result<seq<byte>>)
    ensures |chunks| == 0 ==> r == Fail(TimedOut)
    ensures |chunks| > 0 && |chunks[0]| < HeaderSize ==> r == Fail(StructError)
    ensures |chunks| > 0 && |chunks[0]| >= HeaderSize ==>
      var length := BigEndianValue(chunks[0][..HeaderSize]);
      && (r.Ok? <==> exists k: nat :: FirstStop(length, chunks, k))
      && (forall k: nat :: FirstStop(length, chunks, k) ==> r == Ok(Concat(chunks[..k])))
      && (r.Fail? ==> r.error == TimedOut)
  {
    ReceiveFromStart(chunks);
    Receive(-1, [], chunks)
  }

  lemma ReceiveFromStart(chunks: seq<seq<byte>>)
    ensures |chunks| > 0 && |chunks[0]| >= HeaderSize ==>
      var length := BigEndianValue(chunks[0][..HeaderSize]);
      var r := Receive(-1, [], chunks);
      && (r.Ok? <==> exists k: nat :: FirstStop(length, chunks, k))
      && (forall k: nat :: FirstStop(length, chunks, k) ==> r == Ok(Concat(chunks[..k])))
      && (r.Fail? ==> r.error == TimedOut)
  {
    if |chunks| > 0 && |chunks[0]| >= HeaderSize {
      ReceiveStops(BigEndianValue(chunks[0][..HeaderSize]), chunks, 1);
      assert chunks[..0] == [] && chunks[0..] == chunks;
    }
  }

  lemma ConcatPrefix(chunks: seq<seq<byte>>, k: nat)
    requires k < |chunks|
    ensures Concat(chunks[..k + 1]) == Concat(chunks[..k]) + chunks[k]
  {
    if k > 0 {
      assert chunks[..k + 1][1..] == chunks[1..][..k];
      assert chunks[..k][1..] == chunks[1..][..k - 1];
      ConcatPrefix(chunks[1..], k - 1);
    } else {
      assert chunks[..1][1..] == [];
    }
  }

  /** One turn of the read loop, at chunk `k`. */
  lemma ReceiveStep(length: nat, chunks: seq<seq<byte>>, k: nat)
    requires 1 <= k <= |chunks|
    requires |chunks[0]| >= HeaderSize && length == BigEndianValue(chunks[0][..HeaderSize])
    ensures Receive(if k == 1 then -1 else length, Concat(chunks[..k - 1]), chunks[k - 1..])
      == if StopsAfter(length, chunks, k) then Ok(Concat(chunks[..k]))
         else if k == |chunks| then Fail(TimedOut)
         else Receive(length, Concat(chunks[..k]), chunks[k..])
  {
    var rest := chunks[k - 1..];
    ConcatPrefix(chunks, k - 1);
    if k == 1 {
      assert chunks[..0] == [];
      assert UnpackLength(chunks[0]) == Ok(length);
    }
    assert rest[0] == chunks[k - 1];
    assert rest[1..] == chunks[k..];
  }

  /** The recursion after `k` chunks agrees with the first-stop description. */
  lemma {:induction false} ReceiveStops(length: nat, chunks: seq<seq<byte>>, k: nat)
    requires 1 <= k <= |chunks|
    requires |chunks[0]| >= HeaderSize && length == BigEndianValue(chunks[0][..HeaderSize])
    requires forall j :: 1 <= j < k ==> !StopsAfter(length, chunks, j)
    ensures var r := Receive(if k == 1 then -1 else length, Concat(chunks[..k - 1]), chunks[k - 1..]);
      && (r.Ok? <==> exists m: nat :: FirstStop(length, chunks, m))
      && (forall m: nat :: FirstStop(length, chunks, m) ==> r == Ok(Concat(chunks[..m])))
      && (r.Fail? ==> r.error == TimedOut)
    decreases |chunks| - k
  {
    ReceiveStep(length, chunks, k);
    if StopsAfter(length, chunks, k) {
      assert FirstStop(length, chunks, k);
      assert forall m: nat :: FirstStop(length, chunks, m) ==> m == k;
    } else if k == |chunks| {
      assert forall m: nat :: !FirstStop(length, chunks, m);
    } else {
      ReceiveStops(length, chunks, k + 1);
      assert forall m: nat :: FirstStop(length, chunks, m) ==> m > k;
    }
  }

  /** What `query` hands to `json.loads`: the decrypted reply without its
      4-byte header. */
  function QueryReply(chunks: seq<seq<byte>>): (r: Result<seq<byte>>)
    ensures r.Ok? <==> ReadReply(chunks).Ok?
    ensures r.Ok? ==> |r.value| + HeaderSize == |ReadReply(chunks).value|
    ensures r.Ok? ==> Encipher(r.value, InitializationVector) == ReadReply(chunks).value[HeaderSize..]
  {
    var buffer :- ReadReply(chunks);
    assert |buffer| >= HeaderSize by {
      assert |chunks[0]| >= HeaderSize;
      assert forall k :: 1 <= k <= |chunks| ==> Concat(chunks[..k]) == chunks[0] + Concat(chunks[1..k]) by {
        forall k | 1 <= k <= |chunks| ensures Concat(chunks[..k]) == chunks[0] + Concat(chunks[1..k]) {
          assert chunks[..k][1..] == chunks[1..k];
        }
      }
    }
    Ok(Decrypt(buffer[HeaderSize..]))
  }

  lemma ConcatPrefixLength(chunks: seq<seq<byte>>, k: nat)
    requires k <= |chunks|
    requires forall i :: 0 <= i < |chunks| ==> |chunks[i]| > 0
    ensures |Concat(chunks[..k])| + (|chunks| - k) <= |Concat(chunks)|
    decreases |chunks| - k
  {
    if k < |chunks| {
      ConcatPrefix(chunks, k);
      ConcatPrefixLength(chunks, k + 1);
    } else {
      assert chunks[..k] == chunks;
    }
  }

  /** A device that answers with the frame of a non-empty reply, split into
      non-empty chunks of which the first holds the header, is read to the
      end of that frame and its reply decrypts to the plaintext it sent. */
  lemma {:induction false} ChunkedReplyDecodes(reply: seq<byte>, chunks: seq<seq<byte>>)
    requires 0 < |reply| < LengthLimit
    requires Concat(chunks) == Encrypt(reply).value
    requires |chunks| > 0 && |chunks[0]| >= HeaderSize
    requires forall i :: 0 <= i < |chunks| ==> |chunks[i]| > 0
    ensures QueryReply(chunks) == Ok(reply)
  {
    var frame := Encrypt(reply).value;
    var n := |chunks|;
    assert chunks[..n] == chunks;
    assert frame[..HeaderSize] == chunks[0][..HeaderSize] by {
      assert chunks == chunks[..1] + chunks[1..];
      assert Concat(chunks) == chunks[0] + Concat(chunks[1..]);
    }
    var length := BigEndianValue(chunks[0][..HeaderSize]);
    assert length == |reply|;
    forall j | 1 <= j < n ensures !StopsAfter(length, chunks, j) {
      ConcatPrefixLength(chunks, j);
    }
    assert FirstStop(length, chunks, n);
    assert ReadReply(chunks) == Ok(frame);
    EncryptRoundTrip(reply);
  }
}
