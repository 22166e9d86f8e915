/** Streaming BLAKE2s over an abstract compression function. */
module Blake2s {
  import opened Numbers

  /** Bytes in a block: 64 for BLAKE2s. Nothing below depends on the number. */
  type BlockSize = n: nat | n > 0 witness 64
  const BLOCK: BlockSize

  /** The compression function F of RFC 7693: chain value, block, byte counter, last-block flag. */
  type Compression<!H> = (H, seq<byte>, nat, bool) -> H

  function Padded(block: seq<byte>): (p: seq<byte>)
    requires |block| <= BLOCK
    ensures |p| == BLOCK
  {
    block + Zeros(BLOCK - |block|)
  }

  // ----- section 3.3 of RFC 7693 for unkeyed hashing

  /** The number of blocks; an empty message still has one. */
  function BlockCount(len: nat): (n: nat)
    ensures n >= 1 && BLOCK * (n - 1) <= len <= BLOCK * n
    ensures n == 1 || BLOCK * (n - 1) < len
  {
    if len <= BLOCK then 1 else 1 + BlockCount(len - BLOCK)
  }

  /** The chain value after the first i blocks, none of them the last. */
  ghost function Chain<H>(f: Compression<H>, h0: H, data: seq<byte>, i: nat): H
    requires BLOCK * i <= |data|
  {
    if i == 0 then h0
    else f(Chain(f, h0, data, i - 1), data[BLOCK * (i - 1)..BLOCK * i], BLOCK * i, false)
  }

  ghost function Rfc7693<H>(f: Compression<H>, h0: H, data: seq<byte>): H
  {
    var last := BlockCount(|data|) - 1;
    f(Chain(f, h0, data, last), Padded(data[BLOCK * last..]), |data|, true)
  }

  // ----- the streaming view

  /** Chain value, byte counter and what is left in the buffer: at most one block, which may be full. */
  datatype Absorbed<H> = Absorbed(h: H, t: nat, rest: seq<byte>)

  ghost function Absorb<H>(f: Compression<H>, h: H, t: nat, data: seq<byte>): (a: Absorbed<H>)
    ensures |a.rest| <= BLOCK && a.t + |a.rest| == t + |data|
    decreases |data|
  {
    if |data| <= BLOCK then Absorbed(h, t, data)
    else Absorb(f, f(h, data[..BLOCK], t + BLOCK, false), t + BLOCK, data[BLOCK..])
  }

  /** Absorbing two pieces one after the other. */
  lemma {:induction false} AbsorbAppend<H>(f: Compression<H>, h: H, t: nat, data: seq<byte>, more: seq<byte>)
    ensures var a := Absorb(f, h, t, data); Absorb(f, h, t, data + more) == Absorb(f, a.h, a.t, a.rest + more)
    decreases |data|
  {
    if |data| > BLOCK {
      AbsorbAppend(f, f(h, data[..BLOCK], t + BLOCK, false), t + BLOCK, data[BLOCK..], more);
      assert (data + more)[..BLOCK] == data[..BLOCK];
      assert (data + more)[BLOCK..] == data[BLOCK..] + more;
    }
  }

  /** Block i is complete unless it is the last. */
  lemma BlockBounds(len: nat, i: nat)
    requires i < BlockCount(len)
    ensures BLOCK * i <= len
    ensures BLOCK * (i + 1) == BLOCK * i + BLOCK
    ensures if i + 1 < BlockCount(len) then BLOCK * i + BLOCK < len else len <= BLOCK * i + BLOCK
  {
    var last := BlockCount(len) - 1;
    MulMono(i, last, BLOCK);
    if i < last {
      MulMono(i + 1, last, BLOCK);
    }
  }

  /** Absorbing from block i on ends as the message's last block asks. */
  lemma {:induction false} AbsorbFrom<H>(f: Compression<H>, h0: H, data: seq<byte>, i: nat, start: nat, last: nat)
    requires i <= last == BlockCount(|data|) - 1 && start == BLOCK * i <= |data|
    ensures Absorb(f, Chain(f, h0, data, i), start, data[start..])
         == Absorbed(Chain(f, h0, data, last), BLOCK * last, data[BLOCK * last..])
    decreases last - i
  {
    BlockBounds(|data|, i);
    if i < last {
      var rest := data[start..];
      assert rest[..BLOCK] == data[start..start + BLOCK];
      assert rest[BLOCK..] == data[start + BLOCK..];
      AbsorbFrom(f, h0, data, i + 1, start + BLOCK, last);
    }
  }

  /** Finishing the absorbed message is the hash of the standard. */
  lemma AbsorbIsRfc<H>(f: Compression<H>, h0: H, data: seq<byte>)
    ensures var a := Absorb(f, h0, 0, data); f(a.h, Padded(a.rest), a.t + |a.rest|, true) == Rfc7693(f, h0, data)
  {
    AbsorbFrom(f, h0, data, 0, 0, BlockCount(|data|) - 1);
    assert data[0..] == data;
  }

  // ----- the hasher

  class Blake2s256<!H(!new)> {
    const compress: Compression<H>
    const initial: H
    var h: H
    var t: nat
    var inputBuffer: array<byte>
    var filled: nat

    constructor (compress: Compression<H>, initial: H)
      ensures Valid() && IsNew() && this.compress == compress && this.initial == initial && fresh(inputBuffer)
    {
      this.compress, this.initial := compress, initial;
      h, t, filled := initial, 0, 0;
      inputBuffer := new byte[BLOCK](_ => 0);
    }

    ghost predicate Valid()
      reads this
    {
      inputBuffer.Length == BLOCK && filled <= BLOCK
    }

    /** The updates since the last reset make up `data`. */
    ghost predicate Input(data: seq<byte>)
      requires Valid()
      reads this, inputBuffer
    {
      Absorb(compress, initial, 0, data) == Absorbed(h, t, inputBuffer[..filled])
    }

    /** The state of a new hasher. */
    ghost predicate IsNew()
      reads this
    {
      h == initial && t == 0 && filled == 0
    }

    lemma NewHasNoInput()
      requires Valid() && IsNew()
      ensures Input([])
    {
      assert inputBuffer[..filled] == [];
    }

    /** The round function of the delegation: the counter advances by the bytes of the block. */
    method RunRoundFunction(byteLen: nat, lastRound: bool)
      requires Valid()
      modifies this`h, this`t
      ensures t == old(t) + byteLen && h == compress(old(h), inputBuffer[..], t, lastRound)
    {
      t := t + byteLen;
      h := compress(h, inputBuffer[..], t, lastRound);
    }

    method CopyIn(at: nat, src: seq<byte>)
      requires Valid() && at + |src| <= BLOCK
      modifies inputBuffer
      ensures inputBuffer[..at + |src|] == old(inputBuffer[..at]) + src
    {
      var i := 0;
      while i < |src|
        invariant 0 <= i <= |src|
        invariant inputBuffer[..at] == old(inputBuffer[..at])
        invariant inputBuffer[at..at + i] == src[..i]
      {
        inputBuffer[at + i] := src[i];
        i := i + 1;
      }
    }

    method Update(data: seq<byte>, ghost before: seq<byte>)
      requires Valid() && Input(before)
      modifies this`h, this`t, this`filled, inputBuffer
      ensures Valid() && Input(before + data)
    {
      AbsorbAppend(compress, initial, 0, before, data);
      var left := data;
      while left != []
        invariant Valid()
        invariant Absorb(compress, initial, 0, before + data) == Absorb(compress, h, t, inputBuffer[..filled] + left)
        decreases |left|, filled == BLOCK
      {
        left := FillBlock(left);
        if left != [] {
          CompressFull(left);
        }
      }
      assert inputBuffer[..filled] + [] == inputBuffer[..filled];
    }

    /** Moves as much as fits into the buffer; something is left only when the buffer is full. */
    method FillBlock(data: seq<byte>) returns (left: seq<byte>)
      requires Valid() && data != []
      modifies this`filled, inputBuffer
      ensures Valid() && inputBuffer[..filled] + left == old(inputBuffer[..filled]) + data
      ensures left != [] ==> filled == BLOCK
      ensures |left| < |data| || (|left| == |data| && old(filled) == BLOCK)
    {
      var toProcess := Min(|data|, BLOCK - filled);
      CopyIn(filled, data[..toProcess]);
      filled := filled + toProcess;
      left := data[toProcess..];
      assert data == data[..toProcess] + left;
    }

    /** A full buffer with more data to come is compressed, not as the last block. */
    method CompressFull(left: seq<byte>)
      requires Valid() && filled == BLOCK && left != []
      modifies this`h, this`t, this`filled
      ensures Valid() && filled == 0
      ensures Absorb(compress, h, t, inputBuffer[..filled] + left)
           == old(Absorb(compress, h, t, inputBuffer[..filled] + left))
    {
      ghost var pending := inputBuffer[..filled] + left;
      assert pending[..BLOCK] == inputBuffer[..] && pending[BLOCK..] == left;
      RunRoundFunction(BLOCK, false);
      filled := 0;
      assert inputBuffer[..filled] + left == left;
    }

    /** Pads the buffer with zeros and compresses it as the last block; an empty input is no exception. */
    method Finish(ghost data: seq<byte>) returns (digest: H)
      requires Valid() && Input(data)
      modifies this`h, this`t, inputBuffer
      ensures digest == Rfc7693(compress, initial, data)
    {
      ghost var rest, h' := inputBuffer[..filled], h;
      CopyIn(filled, Zeros(BLOCK - filled));
      assert inputBuffer[..] == inputBuffer[..BLOCK] == Padded(rest);
      RunRoundFunction(filled, true);
      assert h == compress(h', Padded(rest), t, true);
      AbsorbIsRfc(compress, initial, data);
      digest := h;
    }

    /** The hash of everything since the last reset; afterwards the hasher is as new. */
    method FinalizeReset(ghost data: seq<byte>) returns (digest: H)
      requires Valid() && Input(data)
      modifies this`h, this`t, this`filled, inputBuffer
      ensures digest == Rfc7693(compress, initial, data)
      ensures Valid() && IsNew()
    {
      digest := Finish(data);
      h, t, filled := initial, 0, 0;
    }
  }

  ghost function Concat(chunks: seq<seq<byte>>): seq<byte>
  {
    if chunks == [] then [] else Concat(chunks[..|chunks| - 1]) + chunks[|chunks| - 1]
  }

  /** However the input is split into updates, the digest is that of the whole. */
  method HashChunks<H(!new)>(hasher: Blake2s256<H>, chunks: seq<seq<byte>>) returns (digest: H)
    requires hasher.Valid() && hasher.IsNew()
    modifies hasher, hasher.inputBuffer
    ensures digest == Rfc7693(hasher.compress, hasher.initial, Concat(chunks))
    ensures hasher.Valid() && hasher.IsNew()
  {
    hasher.NewHasNoInput();
    var i := 0;
    while i < |chunks|
      invariant 0 <= i <= |chunks| && hasher.inputBuffer == old(hasher.inputBuffer)
      invariant hasher.Valid() && hasher.Input(Concat(chunks[..i]))
    {
      hasher.Update(chunks[i], Concat(chunks[..i]));
      assert chunks[..i + 1][..i] == chunks[..i];
      i := i + 1;
    }
    assert chunks[..i] == chunks;
    digest := hasher.FinalizeReset(Concat(chunks));
  }
}
