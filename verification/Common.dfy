/** Bytes, error outcomes and small sequence facts shared by every module. */
module Common {

  type byte = b: int | 0 <= b < 256
  type bytes = seq<byte>

  /** A fixed 32-byte string: a key, a hash, a label or an address. */
  type bytes32 = b: bytes | |b| == 32 witness seq(32, i => 0)

  datatype Option<+T> = None | Some(value: T)

  /** What a call does: return a value, or throw. */
  datatype Outcome<+T> = Returns(value: T) | Throws(error: Error) {

    predicate IsFailure() {
      Throws?
    }

    function PropagateFailure<U>(): Outcome<U>
      requires Throws?
    {
      Throws(error)
    }

    function Extract(): T
      requires Returns?
    {
      value
    }
  }

  /** One constructor for every place at which the modelled code throws. */
  datatype Error =
    | NegativeInteger
    | IntegerOverflow
    | OddHexLength
    | NonHexCharacter
    | BadBetaLength
    | BadByteCount
    | EmptyRange
    | RangeTooLarge
    | EmptyArray
    | BadSeedLength
    | BadKeyLength
    | ScalarOutOfRange
    | NoCurvePoint
    | BadProofLength
    | BadPoint
    | BadGamma
    | BadLabelLength
    | UnsupportedSuite
    | AuthorityNotFound
    | AuthorityNotFrozen
    | AuthorityRevoked
    | ProofDoesNotVerify
    | BetaMismatch
    | UndecodableAccount

  /** The bytes of a plain text. */
  function Ascii(text: string): (b: bytes)
    requires forall i :: 0 <= i < |text| ==> text[i] < 128 as char
    ensures |b| == |text| && forall i :: 0 <= i < |text| ==> b[i] == text[i] as int
  {
    seq<byte>(|text|, i requires 0 <= i < |text| => text[i] as int)
  }

  /** Two different inputs with one hash. */
  ghost predicate Collision(hash: bytes -> bytes, a: bytes, b: bytes) {
    a != b && hash(a) == hash(b)
  }

  /** The hash function returns exactly n bytes on every input. */
  ghost predicate HashOfLength(hash: bytes -> bytes, n: nat) {
    forall m :: |hash(m)| == n
  }

  /** Hash functions, taken as unknown functions with a fixed output length. */
  type Hash32 = h: bytes -> bytes | HashOfLength(h, 32) witness (m: bytes) => seq<byte>(32, i => 0)
  type Hash64 = h: bytes -> bytes | HashOfLength(h, 64) witness (m: bytes) => seq<byte>(64, i => 0)

  function Reverse<T>(s: seq<T>): (r: seq<T>)
    ensures |r| == |s|
    ensures forall i :: 0 <= i < |s| ==> r[i] == s[|s| - 1 - i]
  {
    seq(|s|, i requires 0 <= i < |s| => s[|s| - 1 - i])
  }

  lemma ReverseConcat<T>(a: seq<T>, b: seq<T>)
    ensures Reverse(a + b) == Reverse(b) + Reverse(a)
  {
  }

  /** Concatenation splits uniquely once the length of the first part is known. */
  lemma SplitUnique<T>(a: seq<T>, b: seq<T>, c: seq<T>, d: seq<T>)
    requires |a| == |c|
    requires a + b == c + d
    ensures a == c && b == d
  {
    assert a == (a + b)[..|a|] && c == (c + d)[..|c|];
    assert b == (a + b)[|a|..] && d == (c + d)[|c|..];
  }

  lemma Regroup<T>(a: seq<T>, b: seq<T>, c: seq<T>)
    ensures (a + b) + c == a + (b + c)
  {
  }

  function Flatten<T>(parts: seq<seq<T>>): (s: seq<T>) {
    if parts == [] then [] else parts[0] + Flatten(parts[1..])
  }

  lemma {:induction false} FlattenConcat<T>(a: seq<seq<T>>, b: seq<seq<T>>)
    ensures Flatten(a + b) == Flatten(a) + Flatten(b)
  {
    if a == [] {
      assert a + b == b;
    } else {
      assert (a + b)[1..] == a[1..] + b;
      FlattenConcat(a[1..], b);
    }
  }

  lemma FlattenPair<T>(x: seq<T>, y: seq<T>)
    ensures Flatten([x, y]) == x + y
  {
    assert Flatten([x, y]) == x + Flatten([y]);
    assert Flatten([y]) == y + Flatten<T>([]);
  }

  lemma FlattenFour<T>(x: seq<T>, y: seq<T>, z: seq<T>, w: seq<T>)
    ensures Flatten([x, y, z, w]) == x + y + z + w
  {
    FlattenPair(x, y);
    FlattenPair(z, w);
    FlattenConcat([x, y], [z, w]);
    assert [x, y, z, w] == [x, y] + [z, w];
  }
}
