/** packages/ecvrf/src/expand.ts: the buffered byte stream and the values drawn from it. */
module Stream {
  import opened Common
  import opened Encoding
  import opened ExpandInput
  import Bits
  import opened Doubles
  import opened Rejection
  import opened Shuffle

  // ---------------------------------------------------------------- the infinite sequence

  /** What a stream is drawn from. */
  datatype Source = Source(hash: Hash64, beta: bytes, path: seq<bytes>) {

    /** Block i of the infinite sequence. */
    function Block(i: nat): bytes {
      hash(BlockInput(beta, path, i))
    }

    /** Byte k of the infinite sequence. */
    function At(k: nat): byte
    {
      Block(k / 64)[k % 64]
    }

    /** The n bytes from position pos. */
    function Slice(pos: nat, n: nat): (s: bytes)
      ensures |s| == n
    {
      seq<byte>(n, k requires 0 <= k < n => At(pos + k))
    }

    /** The big-endian 32-bit word at position pos. */
    function WordAt(pos: nat): (w: Bits.word)
    {
      EncodeDecodeBE(Slice(pos, 4));
      Pow256Of4And8();
      BE(Slice(pos, 4))
    }

    // -------------------------------------------------------------- rejection sampling on the sequence

    /** Some word from pos on, four bytes apart, is accepted: exactly when nextRange returns. */
    ghost predicate Eventually(range: nat, pos: nat)
      requires 1 <= range <= Bits.WORDS
    {
      exists t: nat :: Accepts(range, WordAt(pos + 4 * t))
    }

    ghost function LeastUpTo(range: nat, pos: nat, t: nat): (u: nat)
      requires 1 <= range <= Bits.WORDS
      requires Accepts(range, WordAt(pos + 4 * t))
      ensures Accepts(range, WordAt(pos + 4 * u))
      ensures forall v: nat :: v < u ==> !Accepts(range, WordAt(pos + 4 * v))
    {
      if v: nat :| v < t && Accepts(range, WordAt(pos + 4 * v)) then LeastUpTo(range, pos, v) else t
    }

    /** How many words nextRange rejects before the one it accepts. */
    ghost function Rejected(range: nat, pos: nat): (u: nat)
      requires 1 <= range <= Bits.WORDS && Eventually(range, pos)
      ensures Accepts(range, WordAt(pos + 4 * u))
      ensures forall v: nat :: v < u ==> !Accepts(range, WordAt(pos + 4 * v))
    {
      var t: nat :| Accepts(range, WordAt(pos + 4 * t));
      LeastUpTo(range, pos, t)
    }

    /** What nextRange adds to its lower bound when it starts at pos, and where it stops; None if it never stops. */
    ghost function NextDraw(range: nat, pos: nat): Option<Draw>
      requires 1 <= range <= Bits.WORDS
    {
      if Eventually(range, pos) then
        var u := Rejected(range, pos);
        Some(Draw(Candidate(range, WordAt(pos + 4 * u)), pos + 4 * (u + 1)))
      else None
    }

    /** A draw consumes four bytes per word tried and stops at the first accepted word. */
    lemma DrawMeaning(range: nat, pos: nat, t: nat)
      requires 1 <= range <= Bits.WORDS && Accepts(range, WordAt(pos + 4 * t))
      ensures NextDraw(range, pos).Some?
      ensures (forall v: nat :: v < t ==> !Accepts(range, WordAt(pos + 4 * v))) ==>
        NextDraw(range, pos).value == Draw(Candidate(range, WordAt(pos + 4 * t)), pos + 4 * (t + 1))
    {
      hide Candidate, WordAt;
      var u := Rejected(range, pos);
      if u < t { assert Accepts(range, WordAt(pos + 4 * u)); }
    }

    lemma DrawInRange(range: nat, pos: nat)
      requires 1 <= range <= Bits.HALF && NextDraw(range, pos).Some?
      ensures 0 <= NextDraw(range, pos).value.value < range
    {
      hide Candidate, WordAt;
      CandidateIsResidue(range, WordAt(pos + 4 * Rejected(range, pos)));
    }

    /** On any range the drawn offset is below it, and is a signed 32-bit number. */
    lemma DrawBelow(range: nat, pos: nat)
      requires 1 <= range <= Bits.WORDS && NextDraw(range, pos).Some?
      ensures -0x8000_0000 <= NextDraw(range, pos).value.value < range
    {
      hide Candidate, WordAt;
      CandidateBelow(range, WordAt(pos + 4 * Rejected(range, pos)));
    }

    /** The choices a shuffle of n elements draws from pos, and where it stops; None if some draw never stops. */
    ghost function ShufflePlan(n: nat, pos: nat): (r: Option<Plan>)
      requires n <= Bits.WORDS
      ensures r.Some? ==> Draws(n, r.value.choices) && (n <= Bits.HALF ==> NonNegative(r.value.choices))
    {
      hide NextDraw;
      if n <= 1 then Some(Plan([], pos))
      else match NextDraw(n, pos)
        case None => None
        case Some(d) =>
          DrawBelow(n, pos);
          assert n <= Bits.HALF ==> d.value >= 0 by { if n <= Bits.HALF { DrawInRange(n, pos); } }
          match ShufflePlan(n - 1, d.next)
          case None => None
          case Some(p) => Some(Plan([d.value] + p.choices, p.next))
    }
  }

  datatype Draw = Draw(value: int, next: nat)
  datatype Plan = Plan(choices: seq<int>, next: nat)

  /** The first choice of a plan is the next draw; the rest is a plan for one element fewer. */
  lemma PlanStep(src: Source, n: nat, pos: nat, plan: Plan) returns (rest: Plan)
    requires 1 < n <= Bits.WORDS && src.ShufflePlan(n, pos) == Some(plan)
    ensures var d := src.NextDraw(n, pos);
      && d.Some? && -0x8000_0000 <= d.value.value < n
      && src.ShufflePlan(n - 1, d.value.next) == Some(rest)
      && plan == Plan([d.value.value] + rest.choices, rest.next)
  {
    hide Source.NextDraw, Draws, NonNegative;
    src.DrawBelow(n, pos);
    rest := src.ShufflePlan(n - 1, src.NextDraw(n, pos).value.next).value;
  }

  /** The words a shuffle accepts, in order. */
  ghost function PlanWords(src: Source, n: nat, pos: nat): seq<int>
    requires n <= Bits.HALF && src.ShufflePlan(n, pos).Some?
  {
    if n <= 1 then []
    else
      [src.WordAt(pos + 4 * src.Rejected(n, pos))] + PlanWords(src, n - 1, src.NextDraw(n, pos).value.next)
  }

  /** The choices of a shuffle are the offsets of the words it accepts, one accepted word per range: the vectors that
      ShuffleExactlyUniform counts. */
  lemma {:induction false} PlanFollowsWords(src: Source, n: nat, pos: nat)
    requires n <= Bits.HALF && src.ShufflePlan(n, pos).Some?
    ensures AcceptedVector(n, PlanWords(src, n, pos))
    ensures src.ShufflePlan(n, pos).value.choices == Offsets(n, PlanWords(src, n, pos))
  {
    hide Candidate, Source.WordAt;
    if n > 1 {
      var rest := PlanStep(src, n, pos, src.ShufflePlan(n, pos).value);
      src.DrawInRange(n, pos);
      PlanFollowsWords(src, n - 1, src.NextDraw(n, pos).value.next);
      assert PlanWords(src, n, pos)[1..] == PlanWords(src, n - 1, src.NextDraw(n, pos).value.next);
    }
  }

  /** The bounds 2^53 and 2^53 + 4 differ by 4, the word 3 is accepted, and the rounded sum is the excluded bound. */
  lemma SumReachesMax(src: Source, pos: nat)
    requires src.WordAt(pos) == 3
    ensures IsNumber(9007199254740992) && IsNumber(9007199254740996)
    ensures src.NextDraw(4, pos) == Some(Draw(3, pos + 4)) && Rounded(9007199254740992 + 3) == 9007199254740996
  {
    hide Source.NextDraw, Source.WordAt;
    RoundsToMax();
    assert CeilLog2(4) == 2 && Bits.Pow2(2) == 4;
    src.DrawMeaning(4, pos, 0);
  }

  /** A fork with at least one label never hashes what its parent hashes; a fork without labels is its parent again,
      from the start. */
  lemma ForkSeparates(src: Source, labels: seq<bytes>, i: nat, j: nat)
    requires WellSized(src.path) && WellSized(src.path + labels) && i < U64_LIMIT && j < U64_LIMIT
    ensures labels != [] ==> BlockInput(src.beta, src.path + labels, i) != BlockInput(src.beta, src.path, j)
    ensures labels == [] ==> src.(path := src.path + labels) == src
  {
    if labels == [] {
      assert src.path + labels == src.path;
    } else {
      if BlockInput(src.beta, src.path + labels, i) == BlockInput(src.beta, src.path, j) {
        BlockInputInjective(src.beta, src.beta, src.path + labels, src.path, i, j);
      }
      assert |src.path + labels| > |src.path|;
    }
  }

  /** A shuffle of at most one element draws nothing and moves nothing. */
  lemma NothingLeft<T>(src: Source, o: Places<T>, n: nat, pos: nat)
    requires n <= 1
    ensures src.ShufflePlan(n, pos) == Some(Plan([], pos)) && Exchanged(o, n, []) == o
  {
  }

  /** What the exchanges of a shuffle amount to. */
  lemma ShuffleMeaning<T>(s: seq<T>, js: seq<int>)
    requires Draws(|s|, js)
    ensures None !in Exchanged(Places(Somes(s), map[]), |s|, js).items <==> NonNegative(js)
    ensures NonNegative(js) ==>
      && Exchanged(Places(Somes(s), map[]), |s|, js) == Places(FisherYates(Somes(s), js), map[])
      && multiset(FisherYates(Somes(s), js)) == multiset(Somes(s))
  {
    HoleIffNegative(Somes(s), |s|, js);
    if NonNegative(js) {
      assert Somes(s) + [] == Somes(s) && FisherYates(Somes(s), js) + [] == FisherYates(Somes(s), js);
      ExchangedIsFisherYates(Somes(s), [], js);
      FisherYatesPermutes(Somes(s), js);
    }
  }

  /** Byte k of a draw from pos is the right byte of the hash of the block's input, whatever string reads as that. */
  lemma SliceMeaning(src: Source, pos: nat, n: nat, k: nat, m: bytes)
    requires WellSized(src.path) && k < n && IsBlockInput(m, src.beta, src.path, (pos + k) / 64)
    ensures src.Slice(pos, n)[k] == src.hash(m)[(pos + k) % 64]
  {
    hide IsBlockInput, BlockInput;
    BlockInputIff(m, src.beta, src.path, (pos + k) / 64);
    assert src.Slice(pos, n)[k] == src.At(pos + k);
  }

  /** A word is its four bytes, the most significant first. */
  lemma WordMeaning(src: Source, pos: nat)
    ensures src.WordAt(pos) == 0x100_0000 * (src.At(pos) as int) + 0x1_0000 * (src.At(pos + 1) as int)
                               + 0x100 * (src.At(pos + 2) as int) + src.At(pos + 3) as int
  {
    hide Source.At;
    var s := src.Slice(pos, 4);
    LastFourBytes(s, 0);
    assert s[..4] == s && s[..0] == [];
  }

  lemma LastByte(s: bytes, i: nat)
    requires i < |s|
    ensures BE(s[..i + 1]) == 256 * BE(s[..i]) + s[i]
  {
    assert s[..i + 1][..i] == s[..i];
  }

  lemma LastFourBytes(s: bytes, i: nat)
    requires i + 4 <= |s|
    ensures BE(s[..i + 4]) == 0x1_0000_0000 * BE(s[..i]) + 0x100_0000 * (s[i] as int)
                              + 0x1_0000 * (s[i + 1] as int) + 0x100 * (s[i + 2] as int) + s[i + 3] as int
  {
    hide BE;
    LastByte(s, i);
    LastByte(s, i + 1);
    LastByte(s, i + 2);
    LastByte(s, i + 3);
  }

  /** A 64-bit value is its two words, the first in the high half. */
  lemma LongMeaning(src: Source, pos: nat)
    ensures BE(src.Slice(pos, 8)) == 0x1_0000_0000 * src.WordAt(pos) + src.WordAt(pos + 4)
  {
    hide Source.At;
    SliceSplit(src, pos, 4, 4);
    EightBytes(src.Slice(pos, 4), src.Slice(pos + 4, 4));
  }

  lemma EightBytes(a: bytes, b: bytes)
    requires |a| == 4 && |b| == 4
    ensures BE(a + b) == 0x1_0000_0000 * BE(a) + BE(b)
  {
    var s := a + b;
    LastFourBytes(s, 4);
    LastFourBytes(b, 0);
    assert s[..8] == s && s[..4] == a && b[..4] == b && b[..0] == [];
  }

  /** Drawing m bytes and then n bytes is drawing m + n bytes. */
  lemma SliceSplit(src: Source, pos: nat, m: nat, n: nat)
    ensures src.Slice(pos, m + n) == src.Slice(pos, m) + src.Slice(pos + m, n)
  {
  }

  lemma AtInBlock(src: Source, i: nat, k: nat)
    requires k < 64
    ensures src.At(64 * i + k) == src.Block(i)[k]
  {
    assert (64 * i + k) / 64 == i && (64 * i + k) % 64 == k;
  }

  /** A slice inside one block is a slice of that block. */
  lemma SliceInBlock(src: Source, i: nat, from: nat, n: nat)
    requires from + n <= 64
    ensures src.Slice(64 * i + from, n) == src.Block(i)[from..from + n]
  {
    var a, b := src.Slice(64 * i + from, n), src.Block(i)[from..from + n];
    forall k | 0 <= k < n ensures a[k] == b[k] {
      AtInBlock(src, i, from + k);
      assert 64 * i + (from + k) == (64 * i + from) + k;
    }
  }

  // ---------------------------------------------------------------- the code

  class VrfStream {
    const hash: Hash64
    const path: seq<bytes>
    const encodedPath: bytes
    /** The copy the stream reads, and the second copy it exposes. */
    const betaCopy: array<byte>
    const beta: array<byte>
    var blockIndex: nat
    var buf: array<byte>
    var bufOffset: nat
    /** The sequence this stream walks along, and how many of its bytes have been handed out. */
    ghost const src: Source
    ghost var pos: nat

    /** The buffer holds the current block, read up to pos. */
    ghost predicate Valid()
      reads this, betaCopy, buf
    {
      && betaCopy.Length == 64 && betaCopy != beta
      && src == Source(hash, betaCopy[..], path) && encodedPath == EncodePath(path)
      && if blockIndex == 0 then buf.Length == 0 && bufOffset == 0 && pos == 0
         else && buf.Length == 64 && buf[..] == src.Block(blockIndex - 1)
              && 0 < bufOffset <= 64 && pos == 64 * (blockIndex - 1) + bufOffset
    }

    constructor (hash: Hash64, source: array<byte>, path: seq<bytes>)
      requires source.Length == 64
      ensures Valid() && pos == 0 && fresh(betaCopy) && fresh(beta) && fresh(buf)
      ensures betaCopy != beta && buf != beta
      ensures src == Source(hash, source[..], path) && beta[..] == source[..]
    {
      this.hash := hash;
      this.path := path;
      src := Source(hash, source[..], path);
      var encoded := EncodePathParts(path);
      encodedPath := encoded;
      var copy := new byte[64](i requires 0 <= i < 64 reads source => source[i]);
      var exposed := new byte[64](i requires 0 <= i < 64 reads source => source[i]);
      assert copy[..] == source[..] && exposed[..] == source[..];
      betaCopy, beta := copy, exposed;
      blockIndex, bufOffset, pos := 0, 0, 0;
      buf := new byte[0];
    }

    /** vrfStream: throws on a beta of the wrong length. */
    static method Create(hash: Hash64, source: array<byte>, path: seq<bytes>)
      returns (r: Outcome<VrfStream>)
      ensures r.Returns? <==> source.Length == 64
      ensures r.Throws? ==> r.error == BadBetaLength
      ensures r.Returns? ==>
        && r.value.Valid() && r.value.pos == 0 && r.value.src == Source(hash, source[..], path)
        && fresh(r.value) && fresh(r.value.betaCopy) && fresh(r.value.beta) && fresh(r.value.buf)
    {
      if source.Length != 64 { return Throws(BadBetaLength); }
      var s := new VrfStream(hash, source, path);
      return Returns(s);
    }

    /** The number of blocks hashed so far is the position in blocks, rounded up. */
    lemma BlocksRoundedUp()
      requires Valid()
      ensures blockIndex == (pos + 63) / 64
    {
    }

    /** refill: hash the next block into a new buffer. */
    method Refill()
      requires betaCopy.Length == 64
      requires src == Source(hash, betaCopy[..], path) && encodedPath == EncodePath(path)
      modifies this
      ensures fresh(buf) && buf.Length == 64 && buf[..] == src.Block(old(blockIndex))
      ensures bufOffset == 0 && blockIndex == old(blockIndex) + 1 && pos == old(pos)
    {
      var index := U64be(blockIndex);
      var input := ConcatBytes([EXPAND_TAG, betaCopy[..], encodedPath, index]);
      FlattenFour(EXPAND_TAG, betaCopy[..], encodedPath, index);
      var digest := hash(input);
      assert |digest| == 64;
      buf := new byte[64](i requires 0 <= i < |digest| => digest[i]);
      assert buf[..] == digest;
      bufOffset := 0;
      blockIndex := blockIndex + 1;
    }

    /** Refill if the buffer is used up. */
    method Replenish()
      requires Valid()
      modifies this
      ensures betaCopy.Length == 64 && src == Source(hash, betaCopy[..], path) && encodedPath == EncodePath(path)
      ensures betaCopy != beta && (buf == old(buf) || fresh(buf))
      ensures blockIndex > 0 && buf.Length == 64 && buf[..] == src.Block(blockIndex - 1) && 0 <= bufOffset < 64
      ensures pos == old(pos) == 64 * (blockIndex - 1) + bufOffset
    {
      hide Source.Block;
      if bufOffset >= buf.Length { Refill(); }
    }

    /** One round of nextBytes: copy what is left in the buffer, or what is still wanted. */
    method CopyNext(out: array<byte>, written: nat) returns (take: nat)
      requires Valid() && out != buf && out != betaCopy && written < out.Length
      modifies this, out
      ensures Valid() && (buf == old(buf) || fresh(buf))
      ensures 0 < take <= out.Length - written && pos == old(pos) + take
      ensures out[..written + take] == old(out[..written]) + src.Slice(old(pos), take)
    {
      hide Source.Block, Source.Slice;
      Replenish();
      take := if out.Length - written < buf.Length - bufOffset then out.Length - written else buf.Length - bufOffset;
      SliceInBlock(src, blockIndex - 1, bufOffset, take);
      var chunk := buf[bufOffset..bufOffset + take];
      SetBytes(out, chunk, written);
      bufOffset := bufOffset + take;
      pos := pos + take;
    }

    /** nextBytes: the next n bytes of the infinite sequence, in a new array. */
    method NextBytes(n: int) returns (r: Outcome<array<byte>>)
      requires Valid()
      modifies this
      ensures Valid() && (buf == old(buf) || fresh(buf))
      ensures n < 0 ==> r == Throws(BadByteCount) && pos == old(pos)
      ensures n >= 0 ==>
        && r.Returns? && fresh(r.value) && r.value != buf
        && r.value[..] == src.Slice(old(pos), n) && pos == old(pos) + n
    {
      if n < 0 { return Throws(BadByteCount); }
      hide VrfStream.Valid, Source.Slice;
      var out := new byte[n](i => 0);
      var written := 0;
      ghost var start := pos;
      while written < n
        invariant 0 <= written <= n == out.Length && pos == start + written
        invariant Valid() && (buf == old(buf) || fresh(buf)) && out != buf && out != betaCopy
        invariant out[..written] == src.Slice(start, written)
      {
        var take := CopyNext(out, written);
        SliceSplit(src, start, written, take);
        written := written + take;
      }
      assert out[..] == out[..n];
      return Returns(out);
    }

    method Take(n: nat) returns (s: bytes)
      requires Valid()
      modifies this
      ensures Valid() && (buf == old(buf) || fresh(buf))
      ensures s == src.Slice(old(pos), n) && pos == old(pos) + n
    {
      var r := NextBytes(n);
      return r.value[..];
    }

    /** nextU32: four bytes, big-endian. */
    method NextU32() returns (w: Bits.word)
      requires Valid()
      modifies this
      ensures Valid() && (buf == old(buf) || fresh(buf))
      ensures w == src.WordAt(old(pos)) && pos == old(pos) + 4
    {
      var b := Take(4);
      EncodeDecodeBE(b);
      Pow256Of4And8();
      w := BytesToBigIntBE(b);
    }

    /** nextU64: eight bytes, big-endian. */
    method NextU64() returns (v: nat)
      requires Valid()
      modifies this
      ensures Valid() && (buf == old(buf) || fresh(buf))
      ensures v == BE(src.Slice(old(pos), 8)) && v < U64_LIMIT && pos == old(pos) + 8
    {
      var b := Take(8);
      Pow256Of4And8();
      v := BytesToBigIntBE(b);
    }

    /** nextFloat: the top 53 of 64 bits over 2^53, a division that doubles represent exactly. */
    method NextFloat() returns (f: real)
      requires Valid()
      modifies this
      ensures Valid() && (buf == old(buf) || fresh(buf))
      ensures 0.0 <= f < 1.0 && pos == old(pos) + 8
      ensures f * 9007199254740992.0 == (BE(src.Slice(old(pos), 8)) / 2048) as real
    {
      var v := NextU64();
      var top := v / 2048;
      assert 0 <= top < 9007199254740992;
      f := top as real / 9007199254740992.0;
    }

    /** nextRange: mask words until one is accepted. The bounds are doubles, so the difference and the sum are rounded:
        the difference never matters, the sum does beyond 2^53. */
    method NextRange(min: number, max: number) returns (r: Outcome<int>)
      requires Valid()
      requires 1 <= max - min <= Bits.WORDS ==> src.NextDraw(max - min, pos).Some?
      modifies this
      ensures Valid() && (buf == old(buf) || fresh(buf))
      ensures max <= min ==> r == Throws(EmptyRange) && pos == old(pos)
      ensures max - min > Bits.WORDS ==> r == Throws(RangeTooLarge) && pos == old(pos)
      ensures 1 <= max - min <= Bits.WORDS ==>
        var d := src.NextDraw(max - min, old(pos)).value; r == Returns(Rounded(min + d.value)) && pos == d.next
      ensures 1 <= max - min <= Bits.HALF ==>
        && min <= r.value <= max
        && (Rounded(max - 1) < max ==> r.value < max)
        && (-EXACT <= min && max <= EXACT ==> r.value == min + src.NextDraw(max - min, old(pos)).value.value < max)
    {
      hide Source.NextDraw, VrfStream.Valid, Rounded, IsNumber;
      if max <= min { return Throws(EmptyRange); }
      DifferenceRounds(max - min, Bits.WORDS);
      var range := Rounded(max - min);
      if range > Bits.WORDS { return Throws(RangeTooLarge); }
      var mask := SmearedMask(range);
      ghost var start := pos;
      var v := DrawMasked(range, mask);
      if range <= Bits.HALF {
        src.DrawInRange(range, start);
        InRangeIffGap(min, max);
        SumsExactIff(min, max);
      }
      return Returns(Rounded(min + v));
    }

    static method SmearedMask(range: nat) returns (mask: Bits.word)
      requires 1 <= range <= 0x1_0000_0000
      ensures mask == Mask(range)
    {
      hide SmearBy;
      var m := range - 1;
      m := SmearBy(m, 1);
      m := SmearBy(m, 2);
      m := SmearBy(m, 4);
      m := SmearBy(m, 8);
      m := SmearBy(m, 16);
      mask := Bits.ToUint32(m);
    }

    /** The loop of nextRange. */
    method DrawMasked(range: nat, mask: Bits.word) returns (v: int)
      requires Valid() && 1 <= range <= Bits.WORDS && mask == Mask(range)
      requires src.NextDraw(range, pos).Some?
      modifies this
      ensures Valid() && (buf == old(buf) || fresh(buf))
      ensures src.NextDraw(range, old(pos)) == Some(Draw(v, pos))
    {
      hide VrfStream.Valid, Mask, Candidate, Source.WordAt, Bits.JsAnd;
      ghost var start, last, tried := pos, src.Rejected(range, pos), 0;
      while true
        invariant 0 <= tried <= last && pos == start + 4 * tried
        invariant Valid() && (buf == old(buf) || fresh(buf))
        decreases last - tried
      {
        var w := NextU32();
        MaskedWord(range, w);
        v := Bits.JsAnd(w, mask);
        if v < range {
          assert Accepts(range, src.WordAt(start + 4 * tried));
          return;
        }
        tried := tried + 1;
      }
    }

    /** pick: the element at an index drawn by nextRange; a negative index reads undefined. */
    method Pick<T>(arr: seq<T>) returns (r: Outcome<Option<T>>)
      requires Valid() && |arr| < Bits.WORDS
      requires arr != [] ==> src.NextDraw(|arr|, pos).Some?
      modifies this
      ensures Valid() && (buf == old(buf) || fresh(buf))
      ensures arr == [] ==> r == Throws(EmptyArray) && pos == old(pos)
      ensures arr != [] ==>
        var d := src.NextDraw(|arr|, old(pos)).value;
        && pos == d.next && r.Returns? && d.value < |arr|
        && r.value == (if d.value < 0 then None else Some(arr[d.value])) && (|arr| <= Bits.HALF ==> r.value.Some?)
    {
      hide Source.NextDraw, VrfStream.Valid;
      if |arr| == 0 { return Throws(EmptyArray); }
      var j := NextIndex(|arr|);
      return Returns(if 0 <= j < |arr| then Some(arr[j]) else None);
    }

    /** nextRange(0, n): nothing is rounded. */
    method NextIndex(n: nat) returns (j: int)
      requires Valid() && 1 <= n < Bits.WORDS && src.NextDraw(n, pos).Some?
      modifies this
      ensures Valid() && (buf == old(buf) || fresh(buf))
      ensures src.NextDraw(n, old(pos)) == Some(Draw(j, pos)) && j < n && (n <= Bits.HALF ==> j >= 0)
    {
      hide Source.NextDraw, VrfStream.Valid, Rounded;
      ghost var start := pos;
      SmallIsNumber(n);
      src.DrawBelow(n, start);
      SmallIsNumber(src.NextDraw(n, start).value.value);
      var r := NextRange(0, n);
      j := r.value;
    }

    /** shuffle: Fisher-Yates on a copy, driven by the stream; the input is not touched. JavaScript arrays are shorter
        than 2^32; from 2^31 on a draw can be negative, and then the code reads and writes a place outside the array. */
    method Shuffled<T>(arr: array<T>) returns (out: array<Option<T>>, others: map<int, Option<T>>)
      requires Valid() && arr.Length < Bits.WORDS
      requires src.ShufflePlan(arr.Length, pos).Some?
      modifies this
      ensures Valid() && (buf == old(buf) || fresh(buf)) && fresh(out)
      ensures var plan := src.ShufflePlan(arr.Length, old(pos)).value;
        && Places(out[..], others) == Exchanged(Places(Somes(arr[..]), map[]), arr.Length, plan.choices)
        && pos == plan.next
        && (None !in out[..] <==> NonNegative(plan.choices))
        && (NonNegative(plan.choices) ==>
              out[..] == FisherYates(Somes(arr[..]), plan.choices) && multiset(out[..]) == multiset(Somes(arr[..])))
        && (arr.Length <= Bits.HALF ==> NonNegative(plan.choices))
    {
      hide VrfStream.Valid, Source.ShufflePlan, FisherYates, Exchanged;
      ghost var start, plan := Places(Somes(arr[..]), map[]), src.ShufflePlan(arr.Length, pos).value;
      ShuffleMeaning(arr[..], plan.choices);
      out := new Option<T>[arr.Length](k requires 0 <= k < arr.Length reads arr => Some(arr[k]));
      assert out[..] == Somes(arr[..]);
      others := map[];
      var i := out.Length - 1;
      ghost var left := plan;
      while i > 0
        invariant -1 <= i < out.Length == arr.Length && (i < 0 ==> arr.Length == 0)
        invariant Valid() && (buf == old(buf) || fresh(buf)) && fresh(out)
        invariant src.ShufflePlan(i + 1, pos) == Some(left) && left.next == plan.next
        invariant Exchanged(Places(out[..], others), i + 1, left.choices) == Exchanged(start, arr.Length, plan.choices)
      {
        left, others := ShuffleStep(out, others, i, left);
        i := i - 1;
      }
      NothingLeft(src, Places(out[..], others), i + 1, pos);
    }

    /** One round of shuffle: exchange place i and the drawn place. */
    method ShuffleStep<T>(out: array<Option<T>>, others: map<int, Option<T>>, i: nat, ghost left: Plan)
      returns (ghost rest: Plan, others': map<int, Option<T>>)
      requires Valid() && 0 < i < out.Length < Bits.WORDS
      requires src.ShufflePlan(i + 1, pos) == Some(left)
      modifies this, out
      ensures Valid() && (buf == old(buf) || fresh(buf))
      ensures src.ShufflePlan(i, pos) == Some(rest) && rest.next == left.next
      ensures Exchanged(Places(out[..], others'), i, rest.choices)
        == Exchanged(Places(old(out[..]), others), i + 1, left.choices)
    {
      hide VrfStream.Valid, Source.NextDraw, Source.ShufflePlan;
      rest := PlanStep(src, i + 1, pos, left);
      var j := NextIndex(i + 1);
      others' := ExchangeInPlace(out, others, i, j);
      assert left.choices[1..] == rest.choices;
    }

    /** fork: a new stream on the extended path; this stream does not move. */
    method Fork(labels: seq<bytes>) returns (child: VrfStream)
      requires Valid()
      ensures fresh(child) && fresh(child.betaCopy) && fresh(child.beta) && fresh(child.buf)
      ensures child.Valid() && child.pos == 0 && child.beta != child.betaCopy && child.beta != child.buf
      ensures child.src == src.(path := path + labels) && (labels == [] ==> child.src == src)
    {
      assert labels == [] ==> path + labels == path;
      child := new VrfStream(hash, betaCopy, path + labels);
    }
  }

  /** out.set(chunk, at) */
  method SetBytes(out: array<byte>, chunk: bytes, at: nat)
    requires at + |chunk| <= out.Length
    modifies out
    ensures out[..at + |chunk|] == old(out[..at]) + chunk
  {
    forall k | 0 <= k < |chunk| { out[at + k] := chunk[k]; }
  }

  /** tmp = out[i]; out[i] = out[j]; out[j] = tmp, where j may lie outside the array. */
  method ExchangeInPlace<T>(out: array<Option<T>>, others: map<int, Option<T>>, i: nat, j: int)
    returns (others': map<int, Option<T>>)
    requires i < out.Length && j < out.Length
    modifies out
    ensures Places(out[..], others') == Places(old(out[..]), others).Exchange(i, j)
  {
    var tmp := out[i];
    others' := others;
    if j >= 0 {
      out[i] := out[j];
      out[j] := tmp;
    } else {
      out[i] := if j in others then others[j] else None;
      others' := others[j := tmp];
    }
  }

  // ---------------------------------------------------------------- whole uses of a stream

  function Sum(sizes: seq<nat>): nat {
    if sizes == [] then 0 else sizes[0] + Sum(sizes[1..])
  }

  /** However a draw is split into calls, the bytes are those of one call. */
  method DrawInPieces(s: VrfStream, sizes: seq<nat>) returns (joined: bytes)
    requires s.Valid()
    modifies s
    ensures s.Valid() && (s.buf == old(s.buf) || fresh(s.buf))
    ensures joined == s.src.Slice(old(s.pos), Sum(sizes)) && s.pos == old(s.pos) + Sum(sizes)
    decreases |sizes|
  {
    if sizes == [] {
      joined := [];
    } else {
      ghost var start := s.pos;
      var first := s.Take(sizes[0]);
      var rest := DrawInPieces(s, sizes[1..]);
      SliceSplit(s.src, start, sizes[0], Sum(sizes[1..]));
      joined := first + rest;
    }
  }

  method Overwrite(a: array<byte>, junk: nat -> byte)
    modifies a
    ensures forall i :: 0 <= i < a.Length ==> a[i] == junk(i)
  {
    forall i | 0 <= i < a.Length { a[i] := junk(i); }
  }

  /** What a user of a stream and its fork can do: draw from either, or write anything into any array in reach, which
      are the caller's beta, the beta each stream exposes and every array drawn so far. */
  datatype Move = FromParent(n: nat) | FromFork(n: nat) | Scribble(which: nat, junk: nat -> byte)

  function DrawnBy(m: Move, fork: bool): nat {
    match m
    case FromParent(n) => if fork then 0 else n
    case FromFork(n) => if fork then n else 0
    case Scribble(_, _) => 0
  }

  function Drawn(moves: seq<Move>, fork: bool): nat {
    if moves == [] then 0 else Drawn(moves[..|moves| - 1], fork) + DrawnBy(moves[|moves| - 1], fork)
  }

  /** The streams are intact, and no array in reach is one they read. */
  ghost predicate Guarded(s: VrfStream, child: VrfStream, reach: seq<array<byte>>)
    reads s, child, s.betaCopy, s.buf, child.betaCopy, child.buf
  {
    && s.Valid() && child.Valid() && s != child
    && forall a :: a in reach ==> a !in {s.betaCopy, s.buf, child.betaCopy, child.buf}
  }

  /** Whatever is written and however the draws interleave, each stream hands out its own sequence. */
  method OutsidersCannotInterfere(hash: Hash64, callerBeta: array<byte>, path: seq<bytes>, labels: seq<bytes>,
                                  moves: seq<Move>)
    returns (parent: bytes, forked: bytes)
    requires callerBeta.Length == 64
    modifies callerBeta
    ensures parent == Source(hash, old(callerBeta[..]), path).Slice(0, Drawn(moves, false))
    ensures forked == Source(hash, old(callerBeta[..]), path + labels).Slice(0, Drawn(moves, true))
  {
    hide VrfStream.Valid, Source.Slice;
    var s := new VrfStream(hash, callerBeta, path);
    var child := s.Fork(labels);
    var reach := [callerBeta, s.beta, child.beta];
    parent, forked := [], [];
    for k := 0 to |moves|
      invariant fresh(s) && fresh(child) && fresh(s.buf) && fresh(child.buf)
      invariant Guarded(s, child, reach)
      invariant forall a :: a in reach ==> a == callerBeta || fresh(a)
      invariant s.pos == Drawn(moves[..k], false) && child.pos == Drawn(moves[..k], true)
      invariant parent == s.src.Slice(0, s.pos) && forked == child.src.Slice(0, child.pos)
    {
      assert moves[..k + 1][..k] == moves[..k];
      match moves[k]
      case FromParent(n) =>
        SliceSplit(s.src, 0, s.pos, n);
        var b := s.NextBytes(n);
        parent, reach := parent + b.value[..], reach + [b.value];
      case FromFork(n) =>
        SliceSplit(child.src, 0, child.pos, n);
        var b := child.NextBytes(n);
        forked, reach := forked + b.value[..], reach + [b.value];
      case Scribble(which, junk) =>
        if which < |reach| {
          assert reach[which] in reach;
          Overwrite(reach[which], junk);
        }
    }
    assert moves[..|moves|] == moves;
  }
}
