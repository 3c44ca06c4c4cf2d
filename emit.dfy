/** `emit` (lib/main.ts:447-457): store a byte at an index of a
 *  `Uint8Array`, first growing the array by half when the index is its
 *  length. */
module Buffer {
  import opened Common

  /** The contents after `emit(array, b, index)`. A grown array has length
   *  `index + (index >> 1)`, holds the old contents and zeros; a store past
   *  the end of a typed array is dropped, which happens only when the array
   *  is grown from length 0 or 1. */
  function Emitted(contents: seq<byte>, b: byte, index: nat): seq<byte>
    requires index <= |contents|
  {
    if index < |contents| then
      contents[index := b]
    else
      var grown := contents + seq(index / 2, _ => 0 as byte);
      if index < |grown| then grown[index := b] else grown
  }

  /** What callers rely on: the bytes below the index stay, the byte lands
   *  at the index (unless the array was grown from length below 2), and the
   *  array never shrinks. */
  lemma EmittedKeeps(contents: seq<byte>, b: byte, index: nat)
    requires index <= |contents|
    ensures |Emitted(contents, b, index)| >= |contents|
    ensures Emitted(contents, b, index)[..index] == contents[..index]
    ensures index < |contents| || index >= 2 <==> index < |Emitted(contents, b, index)|
    ensures index < |Emitted(contents, b, index)| ==> Emitted(contents, b, index)[index] == b
  {}

  /** The method, returning the array that now holds the data: the same one,
   *  or a fresh one when it had to grow. */
  method Emit(a: array<byte>, b: byte, index: nat) returns (r: array<byte>)
    requires index <= a.Length
    modifies a
    ensures r[..] == Emitted(old(a[..]), b, index)
    ensures index < a.Length ==> r == a
    ensures index == a.Length ==> fresh(r) && a[..] == old(a[..])
  {
    r := a;
    if index == a.Length {
      var newLength := index + index / 2;
      r := new byte[newLength](_ => 0);
      forall i | 0 <= i < a.Length {
        r[i] := a[i];
      }
      assert r[..] == a[..] + seq(index / 2, _ => 0 as byte);
    }
    if index < r.Length {
      r[index] := b;
    }
  }
}
