/** The two languages order 32-byte keys differently on paper: the TypeScript
    builder turns each key into one big integer, the Rust verifier compares byte
    by byte. This module shows the orders are one, so that the rest of the model
    may treat a key as a number. */
module KeyOrder {
  newtype Byte = b: int | 0 <= b < 256

  /** The integer that `BigInt('0x' + hex)` reads from a buffer. */
  function BigEndian(s: seq<Byte>): nat {
    if s == [] then 0 else BigEndian(s[..|s| - 1]) * 256 + s[|s| - 1] as nat
  }

  /** Rust's order on `[u8; 32]`, and `Buffer.compare`: the first difference decides. */
  predicate LexLess(a: seq<Byte>, b: seq<Byte>)
    requires |a| == |b|
  {
    a != [] && (a[0] < b[0] || (a[0] == b[0] && LexLess(a[1..], b[1..])))
  }

  /** Splitting off the last byte instead of the first. */
  lemma {:induction false} LexLessFromTheEnd(a: seq<Byte>, b: seq<Byte>)
    requires |a| == |b| > 0
    ensures var n := |a| - 1;
      LexLess(a, b) <==> LexLess(a[..n], b[..n]) || (a[..n] == b[..n] && a[n] < b[n])
  {
    var n := |a| - 1;
    if n > 0 {
      LexLessFromTheEnd(a[1..], b[1..]);
      assert a[1..][..n - 1] == a[..n][1..] && b[1..][..n - 1] == b[..n][1..];
      assert a[..n] == [a[0]] + a[..n][1..] && b[..n] == [b[0]] + b[..n][1..];
    }
  }

  /** The integer order and the byte order agree on keys of one length. */
  lemma {:induction false} IntegerOrderIsByteOrder(a: seq<Byte>, b: seq<Byte>)
    requires |a| == |b|
    ensures BigEndian(a) < BigEndian(b) <==> LexLess(a, b)
    ensures BigEndian(a) == BigEndian(b) <==> a == b
  {
    if a != [] {
      var n := |a| - 1;
      IntegerOrderIsByteOrder(a[..n], b[..n]);
      LexLessFromTheEnd(a, b);
      assert a == a[..n] + [a[n]] && b == b[..n] + [b[n]];
    }
  }
}
