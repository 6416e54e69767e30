/** Octets, 16-bit ports and the two result types shared by every module. */
module Bytes {

  type Byte = x: int | 0 <= x < 0x100
  type U16 = x: int | 0 <= x < 0x1_0000

  datatype Option<+T> = None | Some(value: T)

  datatype Result<+T, +E> = Ok(value: T) | Err(error: E)

  /** `u16::from_be_bytes`. */
  function FromBE16(hi: Byte, lo: Byte): U16 {
    hi * 256 + lo
  }

  function BE16(n: U16): (s: seq<Byte>)
    ensures |s| == 2 && FromBE16(s[0], s[1]) == n
  {
    [n / 256, n % 256]
  }

  lemma BE16Inverse(hi: Byte, lo: Byte)
    ensures BE16(FromBE16(hi, lo)) == [hi, lo]
  {
  }

  lemma Associate<T>(a: seq<T>, b: seq<T>, c: seq<T>)
    ensures a + (b + c) == a + b + c
  {
  }

  function Min(a: nat, b: nat): nat {
    if a < b then a else b
  }

  lemma DropPast<T>(a: seq<T>, b: seq<T>, n: nat)
    requires n <= |b|
    ensures (a + b)[|a| + n..] == b[n..]
  {
  }

  /** Cutting a concatenation at its seam. */
  lemma SplitAt<T>(a: seq<T>, b: seq<T>)
    ensures (a + b)[..|a|] == a && (a + b)[|a|..] == b
  {
  }

  predicate Distinct<T(==)>(q: seq<T>) {
    forall i, j :: 0 <= i < j < |q| ==> q[i] != q[j]
  }

  ghost function Elements<T>(q: seq<T>): set<T> {
    set x | x in q
  }

  lemma FirstAndRest<T>(q: seq<T>)
    requires q != [] && Distinct(q)
    ensures Distinct(q[1..]) && q[0] !in q[1..]
    ensures forall x :: x in q <==> x == q[0] || x in q[1..]
  {
    assert q == [q[0]] + q[1..];
  }

  lemma {:induction false} DistinctCount<T>(q: seq<T>)
    requires Distinct(q)
    ensures |Elements(q)| == |q|
  {
    if q != [] {
      FirstAndRest(q);
      DistinctCount(q[1..]);
      assert Elements(q) == {q[0]} + Elements(q[1..]);
    }
  }
}
