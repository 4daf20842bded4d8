/** How values are laid out in bytes, and how the layouts nest. */
module Formats {
  import opened Bytes
  import opened Crc8

  datatype PackingError = BufferTooSmall | BufferSizeMismatch(expected: nat, actual: nat) | InvalidValue

  type Packing<+T> = Result<T, PackingError>

  /** A pair of pack and unpack, as a type implementing `PackedStructSlice` provides them. */
  datatype Format<!T> = Format(pack: T -> seq<byte>, unpack: seq<byte> -> Packing<T>)

  /** Every value comes back from its bytes. */
  ghost predicate Faithful<T(!new)>(f: Format<T>) {
    forall v: T :: f.unpack(f.pack(v)) == Ok(v)
  }

  /** Accepted bytes are the bytes of the value they were accepted as. */
  ghost predicate Canonical<T(!new)>(f: Format<T>) {
    forall s :: f.unpack(s).Ok? ==> f.pack(f.unpack(s).value) == s
  }

  /** Packed values, and so accepted inputs, have exactly `n` bytes. */
  ghost predicate Fixed<T(!new)>(f: Format<T>, n: nat) {
    && (forall v: T :: |f.pack(v)| == n)
    && (forall s :: f.unpack(s).Ok? ==> |s| == n)
  }

  datatype HeaderPacket<+H, +P> = HeaderPacket(header: H, payload: P)

  /** `HeaderPacket`: a header of `n` bytes, and the payload in what follows. */
  function Nested<H, P>(n: nat, h: Format<H>, p: Format<P>): Format<HeaderPacket<H, P>> {
    Format(
      (x: HeaderPacket<H, P>) => h.pack(x.header) + p.pack(x.payload),
      (s: seq<byte>) =>
        if n > |s| then Err(BufferTooSmall)
        else
          match h.unpack(s[..n])
          case Err(e) => Err(e)
          case Ok(header) =>
            match p.unpack(s[n..])
            case Err(e) => Err(e)
            case Ok(payload) => Ok(HeaderPacket(header, payload)))
  }

  /** Everything but the checksum, if there is room for one. */
  function SplitPoint(s: seq<byte>): (n: nat)
    ensures n <= |s|
  {
    if |s| == 0 then 0 else |s| - 1
  }

  /**
   * `WithCRC`: the checksum follows the packed value. Unpacking never looks at the checksum of the bytes received: it
   * parses them, packs the value again and compares the checksum of that.
   */
  function Checked<T>(f: Format<T>): Format<T> {
    Format(
      (v: T) => f.pack(v) + [Checksum(f.pack(v))],
      (s: seq<byte>) =>
        if |s| - SplitPoint(s) != 1 then Err(BufferTooSmall)
        else
          match f.unpack(s[..SplitPoint(s)])
          case Err(e) => Err(e)
          case Ok(v) => if s[SplitPoint(s)] == Checksum(f.pack(v)) then Ok(v) else Err(InvalidValue))
  }

  lemma NestedFaithful<H(!new), P(!new)>(n: nat, h: Format<H>, p: Format<P>)
    requires Fixed(h, n) && Faithful(h) && Faithful(p)
    ensures Faithful(Nested(n, h, p))
  {
    forall x: HeaderPacket<H, P>
      ensures Nested(n, h, p).unpack(Nested(n, h, p).pack(x)) == Ok(x)
    {
      var s := h.pack(x.header) + p.pack(x.payload);
      assert s[..n] == h.pack(x.header) && s[n..] == p.pack(x.payload);
    }
  }

  lemma NestedCanonical<H(!new), P(!new)>(n: nat, h: Format<H>, p: Format<P>)
    requires Canonical(h) && Canonical(p)
    ensures Canonical(Nested(n, h, p))
  {
    forall s | Nested(n, h, p).unpack(s).Ok?
      ensures Nested(n, h, p).pack(Nested(n, h, p).unpack(s).value) == s
    {
      assert s == s[..n] + s[n..];
    }
  }

  /** Nested unpacking accepts exactly what both halves accept. */
  lemma NestedAccepts<H(!new), P(!new)>(n: nat, h: Format<H>, p: Format<P>, s: seq<byte>)
    ensures Nested(n, h, p).unpack(s).Ok? <==> |s| >= n && h.unpack(s[..n]).Ok? && p.unpack(s[n..]).Ok?
  {
  }

  lemma NestedFixed<H(!new), P(!new)>(n: nat, h: Format<H>, m: nat, p: Format<P>)
    requires Fixed(h, n) && Fixed(p, m)
    ensures Fixed(Nested(n, h, p), n + m)
  {
    forall x: HeaderPacket<H, P>
      ensures |Nested(n, h, p).pack(x)| == n + m
    {
      assert |h.pack(x.header)| == n && |p.pack(x.payload)| == m;
    }
    forall s | Nested(n, h, p).unpack(s).Ok?
      ensures |s| == n + m
    {
      assert |s[..n]| == n && |s[n..]| == m;
    }
  }

  lemma CheckedFaithful<T(!new)>(f: Format<T>)
    requires Faithful(f)
    ensures Faithful(Checked(f))
  {
    forall v: T
      ensures Checked(f).unpack(Checked(f).pack(v)) == Ok(v)
    {
      var s := f.pack(v) + [Checksum(f.pack(v))];
      assert s[..SplitPoint(s)] == f.pack(v);
    }
  }

  /** For a canonical payload format the indirect test is the direct one: the last byte is the others' checksum. */
  lemma CheckedAccepts<T(!new)>(f: Format<T>, s: seq<byte>)
    requires Canonical(f)
    ensures Checked(f).unpack(s).Ok? <==>
            |s| > 0 && f.unpack(s[..|s| - 1]).Ok? && s[|s| - 1] == Checksum(s[..|s| - 1])
    ensures Checked(f).unpack(s).Ok? ==> Checked(f).unpack(s) == f.unpack(s[..|s| - 1])
  {
    var payload := s[..SplitPoint(s)];
    if f.unpack(payload).Ok? {
      assert f.pack(f.unpack(payload).value) == payload;
    }
  }

  /** Why checked bytes are refused: none at all, or as the payload is, or for the checksum. */
  lemma CheckedErrors<T(!new)>(f: Format<T>, s: seq<byte>)
    requires Checked(f).unpack(s).Err?
    ensures Checked(f).unpack(s).error ==
            if |s| == 0 then BufferTooSmall
            else match f.unpack(s[..|s| - 1]) case Err(e) => e case Ok(_) => InvalidValue
  {
    hide Checksum;
    assert SplitPoint(s) == if |s| == 0 then 0 else |s| - 1;
    assert s[..SplitPoint(s)] == if |s| == 0 then [] else s[..|s| - 1];
  }

  lemma CheckedCanonical<T(!new)>(f: Format<T>)
    requires Canonical(f)
    ensures Canonical(Checked(f))
  {
    forall s | Checked(f).unpack(s).Ok?
      ensures Checked(f).pack(Checked(f).unpack(s).value) == s
    {
      CheckedAccepts(f, s);
      assert s == s[..|s| - 1] + [s[|s| - 1]];
    }
  }

  /** Accepted bytes leave no residue; so bytes that leave one are rejected. */
  lemma AcceptedLeavesNoResidue<T(!new)>(f: Format<T>, s: seq<byte>)
    requires Canonical(f) && Checked(f).unpack(s).Ok?
    ensures Run(CLEAR, Bits(s)) == CLEAR
  {
    CheckedAccepts(f, s);
    ResidueIsZero(s[..|s| - 1], s[|s| - 1]);
    assert s == s[..|s| - 1] + [s[|s| - 1]];
  }

  /**
   * Any change to packed bytes that a burst of at most eight bits, or an odd number of flips, can make is rejected,
   * whatever the payload and its length.
   */
  lemma CorruptionRejected<T(!new)>(f: Format<T>, v: T, received: seq<byte>)
    requires Canonical(f) && Faithful(f) && |received| == |Checked(f).pack(v)|
    requires var e := Diff(Bits(Checked(f).pack(v)), Bits(received)); Burst(e) || Odd(e)
    ensures Checked(f).unpack(received).Err?
  {
    var sent := Checked(f).pack(v);
    CheckedFaithful(f);
    AcceptedLeavesNoResidue(f, sent);
    DifferenceDecides(Bits(sent), Bits(received));
    var e := Diff(Bits(sent), Bits(received));
    if Burst(e) {
      BurstLeavesResidue(e);
    } else {
      OddLeavesResidue(e);
    }
    if Checked(f).unpack(received).Ok? {
      AcceptedLeavesNoResidue(f, received);
    }
  }

  /** Bytes that differ at all differ in some bit. */
  lemma ChangeShows(s: seq<byte>, t: seq<byte>)
    requires |s| == |t| && s != t
    ensures exists i :: 0 <= i < |Diff(Bits(s), Bits(t))| && Diff(Bits(s), Bits(t))[i]
  {
    if forall i :: 0 <= i < |Diff(Bits(s), Bits(t))| ==> !Diff(Bits(s), Bits(t))[i] {
      SameBits(Bits(s), Bits(t));
      BitsInjective(s, t);
    }
  }

  lemma SameBits(x: seq<bool>, y: seq<bool>)
    requires |x| == |y| && forall i :: 0 <= i < |x| ==> !Diff(x, y)[i]
    ensures x == y
  {
    assert forall i :: 0 <= i < |x| ==> (x[i] != y[i]) == Diff(x, y)[i];
  }

  /** Any bytes but the packed ones are rejected if they differ from them within eight consecutive bits only. */
  lemma WindowChangeRejected<T(!new)>(f: Format<T>, v: T, received: seq<byte>, p: nat)
    requires Canonical(f) && Faithful(f) && |received| == |Checked(f).pack(v)|
    requires var e := Diff(Bits(Checked(f).pack(v)), Bits(received));
             forall i :: 0 <= i < |e| && e[i] ==> p <= i < p + 8
    ensures Checked(f).unpack(received).Ok? <==> received == Checked(f).pack(v)
  {
    var sent := Checked(f).pack(v);
    CheckedFaithful(f);
    if received != sent {
      var e := Diff(Bits(sent), Bits(received));
      ChangeShows(sent, received);
      assert |e| == 8 * |sent| >= 8;
      assert BurstAt(e, if p + 8 <= |e| then p else |e| - 8);
      CorruptionRejected(f, v, received);
    }
  }

  /**
   * Two flips are accepted exactly when they are a multiple of 127 bits apart and the bytes still parse: the code's
   * limit, below the length of the smallest message.
   */
  lemma TwoFlipsRejected<T(!new)>(f: Format<T>, v: T, received: seq<byte>, p: nat, q: nat)
    requires Canonical(f) && Faithful(f) && |received| == |Checked(f).pack(v)|
    requires TwoAt(Diff(Bits(Checked(f).pack(v)), Bits(received)), p, q)
    ensures Checked(f).unpack(received).Ok? <==> (q - p) % 127 == 0 && f.unpack(received[..|received| - 1]).Ok?
  {
    var sent := Checked(f).pack(v);
    CheckedFaithful(f);
    AcceptedLeavesNoResidue(f, sent);
    DifferenceDecides(Bits(sent), Bits(received));
    TwoFlipsResidue(Diff(Bits(sent), Bits(received)), p, q);
    CheckedAccepts(f, received);
    var n := |received| - 1;
    ResidueIsZero(received[..n], received[n]);
    assert received == received[..n] + [received[n]];
  }
}
