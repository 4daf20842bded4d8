/** Octets, the usual result types, and the growable byte buffer the codecs work on. */
module Bytes {
  newtype byte = x: int | 0 <= x < 256

  datatype Option<+T> = None | Some(value: T)

  datatype Result<+T, +E> = Ok(value: T) | Err(error: E)

  function Flatten<T>(xs: seq<seq<T>>): (r: seq<T>) {
    if xs == [] then [] else xs[0] + Flatten(xs[1..])
  }

  lemma ConcatAssociates<T>(a: seq<T>, b: seq<T>, c: seq<T>)
    ensures a + (b + c) == (a + b) + c
  {
  }

  lemma {:induction false} FlattenAppend<T>(xs: seq<seq<T>>, ys: seq<seq<T>>)
    ensures Flatten(xs + ys) == Flatten(xs) + Flatten(ys)
  {
    if xs == [] {
      assert xs + ys == ys;
    } else {
      assert (xs + ys)[1..] == xs[1..] + ys;
      FlattenAppend(xs[1..], ys);
    }
  }

  lemma FlattenOne<T>(x: seq<T>)
    ensures Flatten([x]) == x
  {
    assert Flatten([x]) == x + Flatten([]);
  }

  /** Putting `d` in front of every element. */
  function PrependAll<T>(d: seq<T>, xs: seq<seq<T>>): (r: seq<seq<T>>)
    ensures |r| == |xs|
    ensures forall i :: 0 <= i < |xs| ==> r[i] == d + xs[i]
  {
    seq(|xs|, i requires 0 <= i < |xs| => d + xs[i])
  }

  lemma PrependAppend<T>(d: seq<T>, xs: seq<seq<T>>, ys: seq<seq<T>>)
    ensures PrependAll(d, xs + ys) == PrependAll(d, xs) + PrependAll(d, ys)
  {
  }

  /** The part of `bytes::BytesMut` the codecs use. */
  class BytesMut {
    var data: seq<byte>

    constructor ()
      ensures data == []
    {
      data := [];
    }

    method Put(bs: seq<byte>)
      modifies this
      ensures data == old(data) + bs
    {
      data := data + bs;
    }

    method Set(i: nat, b: byte)
      requires i < |data|
      modifies this
      ensures data == old(data)[i := b]
    {
      data := data[i := b];
    }

    /** Truncates, or grows with copies of `fill`. */
    method Resize(n: nat, fill: byte)
      modifies this
      ensures |data| == n
      ensures forall i :: 0 <= i < n ==> data[i] == if i < |old(data)| then old(data)[i] else fill
    {
      var was := data;
      data := seq(n, i requires 0 <= i < n => if i < |was| then was[i] else fill);
    }

    /** Removes and returns the first `n` bytes. */
    method SplitTo(n: nat) returns (front: seq<byte>)
      requires n <= |data|
      modifies this
      ensures front == old(data)[..n] && data == old(data)[n..]
    {
      front := data[..n];
      data := data[n..];
    }

    method Advance(n: nat)
      requires n <= |data|
      modifies this
      ensures data == old(data)[n..]
    {
      data := data[n..];
    }
  }
}
