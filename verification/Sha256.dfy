// Streaming SHA-256: which blocks the compression function is folded over,
// however the message arrives. The compression function itself is a parameter.
//
// `Digest` is the definition: the fold over the message padded as section 5.1.1
// of FIPS 180-4 says. The class keeps what it was fed as a ghost, folds every
// whole block of it as soon as there is one, and holds the rest in its buffer.
module Hashing {
  import opened Bytes

  const BLOCK_BYTES := 64
  const LENGTH_BYTES := 8

  type State = s: seq<u32> | |s| == 8 witness [0, 0, 0, 0, 0, 0, 0, 0]

  const INITIAL: State :=
    [0x6a09e667, 0xbb67ae85, 0x3c6ef372, 0xa54ff53a, 0x510e527f, 0x9b05688c, 0x1f83d9ab, 0x5be0cd19]

  // Section 6.2.2 of FIPS 180-4: one 64-byte block folded into the state.
  type Compression = (State, seq<byte>) -> State

  // ---- What a digest is ----

  // The whole blocks of `bytes`, folded in order.
  function Folded(compress: Compression, bytes: seq<byte>): State
    requires |bytes| % BLOCK_BYTES == 0
  {
    if bytes == [] then INITIAL
    else
      var last := |bytes| - BLOCK_BYTES;
      compress(Folded(compress, bytes[..last]), bytes[last..])
  }

  function Zeros(count: nat): (zeros: seq<byte>)
    ensures |zeros| == count
  {
    seq(count, _ => 0)
  }

  // How many zeros carry a message of `length` bytes and its 1 bit up to the
  // length field.
  function ZeroCount(length: nat): nat {
    (119 - length % BLOCK_BYTES) % BLOCK_BYTES
  }

  // Section 5.1.1 of FIPS 180-4: the least such count.
  lemma ZeroCountIsLeast(length: nat, fewer: nat)
    ensures (length + 1 + ZeroCount(length)) % BLOCK_BYTES == BLOCK_BYTES - LENGTH_BYTES
    ensures fewer < ZeroCount(length) ==> (length + 1 + fewer) % BLOCK_BYTES != BLOCK_BYTES - LENGTH_BYTES
  {
  }

  // The message, a 1 bit, zeros, and its length in bits as 64 bits keep it.
  function Padded(message: seq<byte>): seq<byte> {
    message + [0x80] + Zeros(ZeroCount(|message|)) + BigEndian(|message| * 8 % U64_LIMIT, LENGTH_BYTES)
  }

  lemma PaddedIsWhole(message: seq<byte>)
    ensures |Padded(message)| == |message| + 1 + ZeroCount(|message|) + LENGTH_BYTES
    ensures |Padded(message)| % BLOCK_BYTES == 0
  {
    hide BigEndian, Zeros, ZeroCount;
    ZeroCountIsLeast(|message|, 0);
    RoundsUp(|message| + 1 + ZeroCount(|message|));
  }

  lemma RoundsUp(length: nat)
    requires length % BLOCK_BYTES == BLOCK_BYTES - LENGTH_BYTES
    ensures (length + LENGTH_BYTES) % BLOCK_BYTES == 0
  {
  }

  lemma PaddedParts(message: seq<byte>)
    ensures var padded := Padded(message);
            && |padded| >= |message| + LENGTH_BYTES && padded[..|message|] == message
            && padded[|padded| - LENGTH_BYTES..] == BigEndian(|message| * 8 % U64_LIMIT, LENGTH_BYTES)
  {
    hide BigEndian, Zeros, ZeroCount;
    var front := message + [0x80] + Zeros(ZeroCount(|message|));
    var length := BigEndian(|message| * 8 % U64_LIMIT, LENGTH_BYTES);
    assert (front + length)[|front|..] == length;
  }

  // The length field reads back as the length, for every message the standard
  // admits, so no two of them pad alike.
  lemma PaddingIsInjective(a: seq<byte>, b: seq<byte>)
    requires |a| * 8 < U64_LIMIT && |b| * 8 < U64_LIMIT && Padded(a) == Padded(b)
    ensures a == b
  {
    hide Padded, BigEndian, FromBigEndian;
    PaddedParts(a);
    PaddedParts(b);
    CapacityOfFields();
    BigEndianRoundTrip(|a| * 8, LENGTH_BYTES);
    BigEndianRoundTrip(|b| * 8, LENGTH_BYTES);
  }

  function DigestOf(state: State): seq<byte> {
    Words(state)
  }

  function Words(words: seq<u32>): (bytes: seq<byte>)
    ensures |bytes| == 4 * |words|
  {
    if words == [] then [] else Words(words[..|words| - 1]) + BigEndian(words[|words| - 1], 4)
  }

  function Digest(compress: Compression, message: seq<byte>): seq<byte> {
    PaddedIsWhole(message);
    DigestOf(Folded(compress, Padded(message)))
  }

  // The digest reads back, big-endian, as the state's eight words.
  lemma {:induction false} WordsReadBack(words: seq<u32>, i: nat)
    requires i < |words|
    ensures FromBigEndian(Words(words)[4 * i..4 * i + 4]) == words[i]
  {
    var last := |words| - 1;
    hide BigEndian, FromBigEndian;
    if i == last {
      CapacityOfFields();
      BigEndianRoundTrip(words[last], 4);
      assert Words(words)[4 * last..4 * last + 4] == BigEndian(words[last], 4);
    } else {
      WordsReadBack(words[..last], i);
      assert Words(words)[4 * i..4 * i + 4] == Words(words[..last])[4 * i..4 * i + 4];
    }
  }

  lemma DigestReadsBack(state: State, i: nat)
    requires i < 8
    ensures |DigestOf(state)| == 32 && FromBigEndian(DigestOf(state)[4 * i..4 * i + 4]) == state[i]
  {
    WordsReadBack(state, i);
  }

  // Section 5.3.3 of FIPS 180-4: each word is what is left of the square root of a
  // small prime, scaled by 2^32 and rounded down, once its whole part is gone.
  lemma InitialWordsAreRoots(i: nat)
    requires i < 8
    ensures var prime: int := [2, 3, 5, 7, 11, 13, 17, 19][i];
            var whole: int := [1, 1, 2, 2, 3, 3, 4, 4][i];
            var word: int := INITIAL[i];
            var root := whole * 0x1_0000_0000 + word;
            root * root <= prime * 0x1_0000_0000_0000_0000 < (root + 1) * (root + 1)
  {
  }

  // One more block of sixty-four bytes is one more use of the function.
  lemma FoldedBlock(compress: Compression, bytes: seq<byte>, block: seq<byte>)
    requires |bytes| % 64 == 0 && |block| == 64
    ensures Folded(compress, []) == INITIAL
    ensures Folded(compress, bytes + block) == compress(Folded(compress, bytes), block)
  {
    assert (bytes + block)[..|bytes|] == bytes && (bytes + block)[|bytes|..] == block;
  }

  // The padded message, by its literal parts.
  lemma PaddedIs(message: seq<byte>)
    ensures var padded := Padded(message);
            && |padded| % 64 == 0 && |message| + 9 <= |padded| < |message| + 73
            && padded[..|message|] == message && padded[|message|] == 0x80
            && (forall i :: |message| < i < |padded| - 8 ==> padded[i] == 0)
            && FromBigEndian(padded[|padded| - 8..]) == |message| * 8 % U64_LIMIT
  {
    PaddedIsWhole(message);
    PaddedParts(message);
    CapacityOfFields();
    BigEndianRoundTrip(|message| * 8 % U64_LIMIT, 8);
    hide BigEndian, FromBigEndian;
  }

  // ---- As it streams ----

  // How many of `length` bytes are in whole blocks.
  function Whole(length: nat): (whole: nat)
    ensures whole <= length < whole + BLOCK_BYTES && whole % BLOCK_BYTES == 0
  {
    length - length % BLOCK_BYTES
  }

  class Sha256 {
    const compress: Compression
    var state: State
    const pending: array<byte>
    var pendingBytes: nat
    var totalBytes: u64
    // Everything the pending buffer was ever given: the message, then its padding.
    ghost var fed: seq<byte>

    // The state has folded every whole block fed; the rest waits in the buffer.
    ghost predicate Valid()
      reads this, pending
    {
      && pending.Length == BLOCK_BYTES
      && pendingBytes == |fed| - Whole(|fed|)
      && pending[..pendingBytes] == fed[Whole(|fed|)..]
      && state == Folded(compress, fed[..Whole(|fed|)])
    }

    // What was fed is the message, and its length is kept.
    ghost predicate Streaming()
      reads this, pending
    {
      Valid() && totalBytes == |fed| % U64_LIMIT
    }

    constructor (compress: Compression)
      ensures Streaming() && fed == [] && this.compress == compress && fresh(pending)
    {
      this.compress := compress;
      state := INITIAL;
      pending := new byte[64](_ => 0);
      pendingBytes, totalBytes := 0, 0;
      fed := [];
    }

    // The full buffer folded in and emptied; `grown` is what had been fed with it.
    method AbsorbPending(ghost grown: seq<byte>)
      requires pending.Length == BLOCK_BYTES && pendingBytes == BLOCK_BYTES <= |grown|
      requires |grown| % BLOCK_BYTES == 0 && pending[..] == grown[|grown| - BLOCK_BYTES..]
      requires state == Folded(compress, grown[..|grown| - BLOCK_BYTES])
      modifies `state, `pendingBytes, `fed
      ensures Valid() && fed == grown
    {
      state := compress(state, pending[..]);
      pendingBytes := 0;
      fed := grown;
      assert grown[..|grown|] == grown;
    }

    // As much of `data` as the buffer has room for; what is left over comes back.
    method FillPending(data: seq<byte>) returns (rest: seq<byte>)
      requires Valid()
      modifies pending, `pendingBytes
      ensures pending.Length == BLOCK_BYTES && |rest| <= |data| && rest == data[|data| - |rest|..]
      ensures pendingBytes == old(pendingBytes) + (|data| - |rest|) <= BLOCK_BYTES
      ensures rest != [] ==> pendingBytes == BLOCK_BYTES
      ensures pending[..pendingBytes] == old(pending[..pendingBytes]) + data[..|data| - |rest|]
    {
      var room := BLOCK_BYTES - pendingBytes;
      var taken := if room < |data| then room else |data|;
      forall i | 0 <= i < taken {
        pending[pendingBytes + i] := data[i];
      }
      pendingBytes := pendingBytes + taken;
      rest := data[taken..];
    }

    // Settles the buffer after bytes were put into it.
    method Settle(ghost grown: seq<byte>)
      requires pending.Length == BLOCK_BYTES && pendingBytes <= BLOCK_BYTES
      requires |grown| - pendingBytes == Whole(|fed|) && Whole(|fed|) <= |grown|
      requires pending[..pendingBytes] == grown[Whole(|fed|)..]
      requires Whole(|fed|) <= |fed| && grown[..Whole(|fed|)] == fed[..Whole(|fed|)]
      requires state == Folded(compress, fed[..Whole(|fed|)])
      modifies `state, `pendingBytes, `fed
      ensures Valid() && fed == grown
    {
      if pendingBytes == BLOCK_BYTES {
        BlockFull(|fed|, |grown|);
        AbsorbPending(grown);
      } else {
        NotYetWhole(|fed|, |grown|);
        fed := grown;
      }
    }

    // One round of an update: the buffer filled, and folded in once full.
    method FeedSome(data: seq<byte>) returns (rest: seq<byte>)
      requires Valid() && data != []
      modifies this, pending
      ensures Valid() && totalBytes == old(totalBytes)
      ensures |rest| < |data| && rest == data[|data| - |rest|..]
      ensures fed == old(fed) + data[..|data| - |rest|]
    {
      hide Folded, Whole;
      rest := FillPending(data);
      GrownBuffer(fed, data[..|data| - |rest|]);
      Settle(fed + data[..|data| - |rest|]);
    }

    method Update(data: seq<byte>)
      requires Streaming()
      modifies this, pending
      ensures Streaming() && fed == old(fed) + data
    {
      hide Folded, Whole;
      ghost var before := fed;
      totalBytes := (totalBytes + |data|) % U64_LIMIT;
      var rest := data;
      while rest != []
        invariant Valid() && totalBytes == (|before| + |data|) % U64_LIMIT
        invariant |rest| <= |data| && fed + rest == before + data
        decreases |rest|
      {
        ghost var last, was := rest, fed;
        rest := FeedSome(rest);
        assert last == last[..|last| - |rest|] + rest;
        assert was + last == (was + last[..|last| - |rest|]) + rest;
      }
      assert fed + [] == fed;
    }

    method AppendPadByte(value: byte)
      requires Valid()
      modifies this, pending
      ensures Valid() && fed == old(fed) + [value] && totalBytes == old(totalBytes)
    {
      hide Folded;
      pending[pendingBytes] := value;
      pendingBytes := pendingBytes + 1;
      GrownBuffer(fed, [value]);
      Settle(fed + [value]);
    }

    // The 1 bit, then zeros up to the length field.
    method PadToLengthField()
      requires Valid()
      modifies this, pending
      ensures Valid() && fed == old(fed) + [0x80] + Zeros(ZeroCount(|old(fed)|)) && totalBytes == old(totalBytes)
    {
      hide Folded, Zeros, ZeroCount, Whole;
      ghost var message := fed;
      AppendPadByte(0x80);
      ghost var zeros: nat := 0;
      NoZeros();
      while pendingBytes != BLOCK_BYTES - LENGTH_BYTES
        invariant Valid() && fed == message + [0x80] + Zeros(zeros) && totalBytes == old(totalBytes)
        invariant zeros <= ZeroCount(|message|)
        decreases ZeroCount(|message|) - zeros
      {
        StillShort(|message|, zeros, pendingBytes);
        AppendPadByte(0);
        OneMoreZero(zeros);
        zeros := zeros + 1;
      }
      ReachedField(|message|, zeros, pendingBytes);
    }

    method AbsorbTail()
      requires Streaming()
      modifies this, pending
      ensures Valid() && fed == Padded(old(fed))
    {
      hide Folded, Zeros, ZeroCount, BigEndian;
      var length := BigEndian(totalBytes * 8 % U64_LIMIT, LENGTH_BYTES);
      LengthWraps(|fed|);
      ghost var message := fed;
      PadToLengthField();
      ghost var front := fed;
      for i := 0 to LENGTH_BYTES
        invariant Valid() && fed == front + length[..i]
      {
        AppendPadByte(length[i]);
      }
      assert length[..LENGTH_BYTES] == length;
    }

    // The digest of everything fed, whatever pieces it came in.
    method Finish() returns (digest: seq<byte>)
      requires Streaming()
      modifies this, pending
      ensures digest == Digest(compress, old(fed))
    {
      hide Folded;
      PaddedIsWhole(fed);
      AbsorbTail();
      assert fed[..|fed|] == fed;
      digest := DigestOf(state);
    }
  }

  lemma BlockFull(length: nat, grown: nat)
    requires grown == Whole(length) + BLOCK_BYTES
    ensures grown % BLOCK_BYTES == 0 && Whole(grown) == grown
  {
  }

  lemma NotYetWhole(length: nat, grown: nat)
    requires Whole(length) <= grown < Whole(length) + BLOCK_BYTES
    ensures Whole(grown) == Whole(length)
  {
  }

  lemma GrownBuffer(fed: seq<byte>, more: seq<byte>)
    ensures (fed + more)[Whole(|fed|)..] == fed[Whole(|fed|)..] + more
    ensures (fed + more)[..Whole(|fed|)] == fed[..Whole(|fed|)]
  {
  }

  lemma NoZeros()
    ensures Zeros(0) == []
  {
  }

  lemma OneMoreZero(count: nat)
    ensures Zeros(count) + [0] == Zeros(count + 1)
  {
  }

  lemma StillShort(length: nat, zeros: nat, pendingBytes: nat)
    requires pendingBytes == length + 1 + zeros - Whole(length + 1 + zeros)
    requires pendingBytes != BLOCK_BYTES - LENGTH_BYTES && zeros <= ZeroCount(length)
    ensures zeros < ZeroCount(length)
  {
    ZeroCountIsLeast(length, zeros);
  }

  lemma ReachedField(length: nat, zeros: nat, pendingBytes: nat)
    requires pendingBytes == length + 1 + zeros - Whole(length + 1 + zeros)
    requires pendingBytes == BLOCK_BYTES - LENGTH_BYTES && zeros <= ZeroCount(length)
    ensures zeros == ZeroCount(length)
  {
    ZeroCountIsLeast(length, zeros);
  }

  // Counting bytes modulo 2^64 leaves the same length field as counting them all.
  lemma LengthWraps(length: nat)
    ensures length % U64_LIMIT * 8 % U64_LIMIT == length * 8 % U64_LIMIT
  {
    var q, r := length / U64_LIMIT, length % U64_LIMIT;
    assert length * 8 == r * 8 + U64_LIMIT * (8 * q);
    SameRemainder(r * 8, 8 * q);
  }

  // ---- Every way of splitting ----

  function Joined(pieces: seq<seq<byte>>): seq<byte> {
    if pieces == [] then [] else Joined(pieces[..|pieces| - 1]) + pieces[|pieces| - 1]
  }

  // Fed in any pieces, the digest is that of the message they make up.
  method HashPieces(compress: Compression, pieces: seq<seq<byte>>) returns (digest: seq<byte>)
    ensures digest == Digest(compress, Joined(pieces))
  {
    var hash := new Sha256(compress);
    for i := 0 to |pieces|
      invariant hash.Streaming() && hash.fed == Joined(pieces[..i]) && hash.compress == compress
      invariant fresh(hash) && fresh(hash.pending)
    {
      assert pieces[..i + 1][..i] == pieces[..i];
      hash.Update(pieces[i]);
    }
    assert pieces[..|pieces|] == pieces;
    digest := hash.Finish();
  }
}
