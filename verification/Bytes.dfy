/** Bytes and the big-endian 32-bit length field that both wire formats use. */
module Bytes {

  type byte = b: int | 0 <= b < 256

  const TWO_TO_THE_32 := 0x1_0000_0000

  datatype Option<+T> = None | Some(value: T)

  function AsSeq<T>(o: Option<T>): seq<T> {
    if o.Some? then [o.value] else []
  }

  /** `u32::to_be_bytes` */
  function ToBe32(n: nat): (s: seq<byte>)
    requires n < TWO_TO_THE_32
    ensures |s| == 4
    ensures FromBe32(s) == n
  {
    DigitsSum(n);
    [n / 0x100_0000, n / 0x1_0000 % 256, n / 0x100 % 256, n % 256]
  }

  lemma DigitsSum(n: nat)
    ensures n == n / 0x100_0000 * 0x100_0000 + n / 0x1_0000 % 256 * 0x1_0000 + n / 0x100 % 256 * 0x100 + n % 256
  {
    var hi, mid, lo := n / 0x100_0000, n / 0x1_0000, n / 0x100;
    assert mid / 256 == hi && lo / 256 == mid && n / 256 == lo;
    assert mid == hi * 256 + mid % 256;
    assert lo == mid * 256 + lo % 256;
  }

  /** `u32::from_be_bytes` */
  function FromBe32(s: seq<byte>): (n: nat)
    requires |s| == 4
    ensures n < TWO_TO_THE_32
  {
    var a: int, b: int, c: int, d: int := s[0], s[1], s[2], s[3];
    a * 0x100_0000 + b * 0x1_0000 + c * 0x100 + d
  }

  /** The order of lengths is the order of their bytes from the first on: big-endian. */
  lemma Be32Orders(m: nat, n: nat) returns (i: nat)
    requires m < n < TWO_TO_THE_32
    ensures i < 4 && ToBe32(m)[..i] == ToBe32(n)[..i] && ToBe32(m)[i] < ToBe32(n)[i]
  {
    var s, t := ToBe32(m), ToBe32(n);
    DigitsSum(m);
    DigitsSum(n);
    if s[0] != t[0] {
      i := 0;
    } else if s[1] != t[1] {
      i := 1;
    } else if s[2] != t[2] {
      i := 2;
    } else {
      i := 3;
    }
    assert forall k :: 0 <= k < i ==> s[k] == t[k];
  }

  /** The four bytes are the only spelling of a length. */
  lemma Be32Unique(s: seq<byte>)
    requires |s| == 4
    ensures ToBe32(FromBe32(s)) == s
  {
    var n := FromBe32(s);
    var a: int, b: int, c: int := s[0], s[1], s[2];
    assert n / 0x100_0000 == a;
    assert n / 0x1_0000 == a * 0x100 + b;
    assert n / 0x100 == a * 0x1_0000 + b * 0x100 + c;
  }
}
