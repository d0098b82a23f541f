/**
 * Primitive types shared by the whole model: bytes and the fixed-width
 * integers the generated code uses, the Option/Result wrappers that stand for
 * Rust's `Option` and `std::io::Result`, the big-endian `u16` conversion of the
 * message type tag, and the first-match lookup that a Rust `match` over
 * constant patterns performs.
 */
module Common {

  type byte = x: int | 0 <= x < 0x100
  type u16 = x: int | 0 <= x < 0x1_0000
  type u64 = x: int | 0 <= x < 0x1_0000_0000_0000_0000

  datatype Option<+T> = None | Some(value: T)

  datatype Result<+T, +E> = Ok(value: T) | Err(error: E)

  /** The `std::io::ErrorKind`s the generated code can report. `Other` stands
      for whatever a field codec or the transport reports; it is passed on
      unchanged. */
  datatype IoError = UnexpectedEof | InvalidData | Other(code: nat)

  /** `u16::to_be_bytes`: the high byte first. */
  function ToBeBytes(x: u16): (r: seq<byte>)
    ensures |r| == 2
    ensures (r[0] as int) * 0x100 + r[1] as int == x
  {
    [x / 0x100, x % 0x100]
  }

  /** `u16::from_be_bytes` on a two-byte buffer. */
  function FromBeBytes(hi: byte, lo: byte): u16
  {
    (hi as int) * 0x100 + lo as int
  }

  /** Reading back the two bytes `ToBeBytes` wrote yields the original value. */
  lemma FromToBeBytes(x: u16)
    ensures FromBeBytes(ToBeBytes(x)[0], ToBeBytes(x)[1]) == x
  {
  }

  /** Writing the value read from two bytes gives those two bytes back: the
      conversion is a bijection between `u16` and pairs of bytes. */
  lemma ToFromBeBytes(hi: byte, lo: byte)
    ensures ToBeBytes(FromBeBytes(hi, lo)) == [hi, lo]
  {
    var x := FromBeBytes(hi, lo);
    assert x / 0x100 == hi && x % 0x100 == lo by {
      DivModUnique(x, hi, lo);
    }
  }

  lemma DivModUnique(x: int, q: int, r: int)
    requires 0 <= r < 0x100 && x == q * 0x100 + r
    ensures x / 0x100 == q && x % 0x100 == r
  {
  }

  /** The index of the first element of `xs` equal to `x`: the arm a Rust
      `match` over the constant patterns `xs[0]`, `xs[1]`, ... selects. */
  function FirstIndex(xs: seq<int>, x: int): (r: Option<nat>)
    ensures r.Some? ==> r.value < |xs| && xs[r.value] == x
    ensures r.Some? ==> forall j :: 0 <= j < r.value ==> xs[j] != x
    ensures r.None? <==> forall j :: 0 <= j < |xs| ==> xs[j] != x
  {
    if xs == [] then None
    else if xs[0] == x then Some(0)
    else match FirstIndex(xs[1..], x)
      case None => None
      case Some(k) => Some(k + 1)
  }

  /** No value occurs twice in `xs`. */
  ghost predicate Distinct(xs: seq<int>)
  {
    forall i, j :: 0 <= i < j < |xs| ==> xs[i] != xs[j]
  }

  /** In a list without repetitions the first occurrence of `xs[i]` is `i`. */
  lemma FirstIndexOfDistinct(xs: seq<int>, i: nat)
    requires Distinct(xs) && i < |xs|
    ensures FirstIndex(xs, xs[i]) == Some(i)
  {
  }
}
