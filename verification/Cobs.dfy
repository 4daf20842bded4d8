/**
 * Consistent Overhead Byte Stuffing (S. Cheshire and M. Baker, IEEE/ACM Transactions on Networking 7(2), 1999):
 * a frame body is a list of blocks, each led by a code byte c. Codes 1..254 stand for c - 1 non-zero bytes and a zero,
 * code 255 for 254 non-zero bytes and no zero. The zero of the last block is not part of the message.
 */
module Cobs {
  import opened Bytes

  const FULL_RUN: nat := 254

  ghost predicate ZeroFree(s: seq<byte>) {
    forall i :: 0 <= i < |s| ==> s[i] != 0
  }

  /** The length of the zero-free prefix of `m`, cut at `limit`. */
  function Run(m: seq<byte>, limit: nat): (r: nat)
    ensures r <= limit && r <= |m| && forall i :: 0 <= i < r ==> m[i] != 0
    ensures r == limit || r == |m| || m[r] == 0
  {
    if limit == 0 || m == [] || m[0] == 0 then 0
    else 1 + Run(m[1..], limit - 1)
  }

  /** A block, how much of the message it stands for, and whether another block follows. */
  datatype Step = Step(block: seq<byte>, used: nat, more: bool)

  function FirstBlock(m: seq<byte>): (r: Step)
    ensures r.used <= |m| && |r.block| == 1 + Run(m, FULL_RUN)
    ensures r.more ==> 0 < r.used
  {
    var run := Run(m, FULL_RUN);
    var block := [(run + 1) as byte] + m[..run];
    if run == FULL_RUN then Step(block, run, run < |m|)
    else if run == |m| then Step(block, run, false)
    else Step(block, run + 1, true)
  }

  /** The blocks for `m`; even an empty remainder takes a code byte. */
  function Stuff(m: seq<byte>): (r: seq<byte>)
    decreases |m|
  {
    var b := FirstBlock(m);
    b.block + if b.more then Stuff(m[b.used..]) else []
  }

  /** The frame body for a message: an empty message needs no blocks at all. */
  function Encode(m: seq<byte>): (r: seq<byte>) {
    if m == [] then [] else Stuff(m)
  }

  /** The zero a block stands for, unless it is full or the last. */
  function Separator(c: nat, last: bool): (r: seq<byte>)
    ensures |r| <= 1
  {
    if c != 255 && !last then [0] else []
  }

  /** Reads blocks up to the end of `e`; a block longer than what is left, or a zero code, is an error. */
  function Decode(e: seq<byte>): (r: Option<seq<byte>>)
    decreases |e|
  {
    if e == [] then Some([])
    else if e[0] == 0 || e[0] as int > |e| then None
    else
      var c := e[0] as int;
      match Decode(e[c..])
      case None => None
      case Some(tail) => Some(e[1..c] + Separator(c, c == |e|) + tail)
  }

  /** The space the encoder reserves. */
  function MaxEncodedLength(n: nat): (r: nat) {
    n + n / 254 + if n % 254 > 0 then 1 else 0
  }

  /** One block in front of the blocks of a message. */
  function Block(c: nat, run: seq<byte>, tail: seq<byte>): (r: seq<byte>)
    requires 1 <= c <= 255 && |run| == c - 1
  {
    [c as byte] + run + tail
  }

  lemma DecodeBlock(c: nat, run: seq<byte>, tail: seq<byte>)
    requires 1 <= c <= 255 && |run| == c - 1
    ensures Decode(Block(c, run, tail)) ==
            match Decode(tail) case None => None case Some(t) => Some(run + Separator(c, tail == []) + t)
  {
    var e := Block(c, run, tail);
    assert e[c..] == tail && e[1..c] == run;
  }

  lemma RunOf(run: seq<byte>, t: seq<byte>)
    requires ZeroFree(run) && |run| <= FULL_RUN
    requires |run| == FULL_RUN || t == [] || t[0] == 0
    ensures Run(run + t, FULL_RUN) == |run|
  {
    var x := run + t;
    assert forall i :: 0 <= i < |run| ==> x[i] == run[i];
    assert t != [] ==> x[|run|] == t[0];
  }

  lemma StuffFullRun(run: seq<byte>, t: seq<byte>)
    requires ZeroFree(run) && |run| == FULL_RUN
    ensures Stuff(run + t) == Block(255, run, if t == [] then [] else Stuff(t))
  {
    RunOf(run, t);
    assert (run + t)[..|run|] == run && (run + t)[|run|..] == t;
  }

  lemma StuffUpToZero(run: seq<byte>, t: seq<byte>)
    requires ZeroFree(run) && |run| < FULL_RUN
    ensures Stuff(run + [0] + t) == Block(|run| + 1, run, Stuff(t))
  {
    var m := run + [0] + t;
    assert m == run + ([0] + t);
    RunOf(run, [0] + t);
    assert m[..|run|] == run && m[|run| + 1..] == t;
  }

  lemma StuffUnfolds(m: seq<byte>)
    ensures Stuff(m) == FirstBlock(m).block + if FirstBlock(m).more then Stuff(m[FirstBlock(m).used..]) else []
  {
    hide FirstBlock;
  }

  lemma StuffLastRun(run: seq<byte>)
    requires ZeroFree(run) && |run| < FULL_RUN
    ensures Stuff(run) == Block(|run| + 1, run, [])
  {
    hide Run, Stuff;
    assert run + [] == run;
    RunOf(run, []);
    StuffUnfolds(run);
    var block := [(|run| + 1) as byte] + run;
    assert run[..|run|] == run && block + [] == block;
  }

  /** A frame body that decodes starts with a whole block. */
  lemma DecodeHead(e: seq<byte>)
    requires e != [] && Decode(e).Some?
    ensures var c := e[0] as int;
            && 1 <= c <= |e| && e == Block(c, e[1..c], e[c..])
            && Decode(e[c..]).Some?
            && Decode(e) == Some(e[1..c] + Separator(c, c == |e|) + Decode(e[c..]).value)
  {
    IsBlock(e);
  }

  lemma IsBlock(e: seq<byte>)
    requires e != [] && 1 <= e[0] as int <= |e|
    ensures e == Block(e[0] as int, e[1..e[0] as int], e[e[0] as int..])
  {
    hide Decode;
    var c := e[0] as int;
    assert e == e[..1] + e[1..c] + e[c..];
  }

  lemma {:induction false} StuffDecodes(m: seq<byte>)
    ensures Decode(Stuff(m)) == Some(m)
    decreases |m|
  {
    hide Stuff, Decode;
    var n := Run(m, FULL_RUN);
    var run := m[..n];
    if n == FULL_RUN {
      var t := m[n..];
      assert m == run + t && run + [] + t == m && run + [] + [] == run;
      StuffFullRun(run, t);
      if t == [] {
        NothingDecodes();
        DecodeBlock(255, run, []);
      } else {
        StuffDecodes(t);
        DecodeBlock(255, run, Stuff(t));
      }
    } else if n == |m| {
      assert run == m && m + [] + [] == m;
      StuffLastRun(m);
      NothingDecodes();
      DecodeBlock(n + 1, m, []);
    } else {
      var t := m[n + 1..];
      assert m == run + [0] + t;
      StuffUpToZero(run, t);
      StuffDecodes(t);
      StuffNonEmpty(t);
      DecodeBlock(n + 1, run, Stuff(t));
    }
  }

  lemma NothingDecodes()
    ensures Decode([]) == Some([])
  {
  }

  lemma StuffNonEmpty(m: seq<byte>)
    ensures Stuff(m) != []
  {
  }

  lemma BlockZeroFree(c: nat, run: seq<byte>, tail: seq<byte>)
    requires 1 <= c <= 255 && |run| == c - 1 && ZeroFree(run) && ZeroFree(tail)
    ensures ZeroFree(Block(c, run, tail))
  {
  }

  lemma {:induction false} StuffZeroFree(m: seq<byte>)
    ensures ZeroFree(Stuff(m))
    decreases |m|
  {
    hide Stuff;
    var n := Run(m, FULL_RUN);
    var run := m[..n];
    if n == FULL_RUN {
      var t := m[n..];
      assert m == run + t;
      StuffFullRun(run, t);
      if t != [] {
        StuffZeroFree(t);
      }
      BlockZeroFree(255, run, if t == [] then [] else Stuff(t));
    } else if n == |m| {
      assert run == m;
      StuffLastRun(m);
      BlockZeroFree(n + 1, m, []);
    } else {
      var t := m[n + 1..];
      assert m == run + [0] + t;
      StuffUpToZero(run, t);
      StuffZeroFree(t);
      BlockZeroFree(n + 1, run, Stuff(t));
    }
  }

  /** Every message comes back from its frame body, and the body holds no zero. */
  lemma RoundTrip(m: seq<byte>)
    ensures Decode(Encode(m)) == Some(m) && ZeroFree(Encode(m))
  {
    if m != [] {
      StuffDecodes(m);
      StuffZeroFree(m);
    }
  }

  lemma ReserveGrows(n: nat, k: nat)
    requires 0 < k <= 254
    ensures k + MaxEncodedLength(n) <= MaxEncodedLength(n + k)
    ensures 255 + MaxEncodedLength(n) == MaxEncodedLength(n + 254)
    ensures 1 + k == MaxEncodedLength(k)
  {
  }

  /** The stuffed length never exceeds the reserve, and a zero-free message uses all of it. */
  lemma {:induction false} StuffLength(m: seq<byte>)
    requires m != []
    ensures |Stuff(m)| <= MaxEncodedLength(|m|)
    ensures ZeroFree(m) ==> |Stuff(m)| == MaxEncodedLength(|m|)
    decreases |m|
  {
    hide Stuff, MaxEncodedLength, Run;
    var run := Run(m, FULL_RUN);
    StuffGrows(m);
    if run == FULL_RUN {
      var t := m[run..];
      if t == [] {
        ReserveGrows(0, 254);
      } else {
        StuffLength(t);
        ReserveGrows(|t|, 1);
      }
    } else if run < |m| {
      var t := m[run + 1..];
      assert m[run] == 0;
      if t == [] {
        StuffOfNothing();
        ReserveGrows(0, |m|);
      } else {
        StuffLength(t);
        ReserveGrows(|t|, run + 1);
      }
    } else {
      ReserveGrows(0, |m|);
    }
  }

  /** Each block takes one byte more than its run. */
  lemma StuffGrows(m: seq<byte>)
    ensures var run := Run(m, FULL_RUN);
            |Stuff(m)| == 1 + run +
              if run == FULL_RUN then (if run == |m| then 0 else |Stuff(m[run..])|)
              else if run == |m| then 0 else |Stuff(m[run + 1..])|
  {
    hide Run;
  }

  lemma EncodedLength(m: seq<byte>)
    ensures |Encode(m)| <= MaxEncodedLength(|m|)
    ensures ZeroFree(m) ==> |Encode(m)| == MaxEncodedLength(|m|)
  {
    if m != [] {
      StuffLength(m);
    }
  }

  /** The zero-free bytes `m` ends with. */
  function TrailingRun(m: seq<byte>): (r: nat)
    ensures r <= |m| && forall i :: |m| - r <= i < |m| ==> m[i] != 0
    ensures r == |m| || m[|m| - r - 1] == 0
  {
    if m == [] || m[|m| - 1] == 0 then 0
    else 1 + TrailingRun(m[..|m| - 1])
  }

  /** The last block of `m` is full, so nothing in its body says that the message ends there. */
  predicate EndsOnFullBlock(m: seq<byte>) {
    m == [] || (m[|m| - 1] != 0 && TrailingRun(m) % FULL_RUN == 0)
  }

  lemma TrailingRunIs(m: seq<byte>, r: nat)
    requires r <= |m| && forall i :: |m| - r <= i < |m| ==> m[i] != 0
    requires r == |m| || m[|m| - r - 1] == 0
    ensures TrailingRun(m) == r
  {
  }

  /** A message after a full run, or after a zero, ends on a full block just when it does so by itself. */
  lemma EndsLikeItsTail(run: seq<byte>, sep: seq<byte>, t: seq<byte>)
    requires t != [] && ZeroFree(run)
    requires (sep == [] && |run| == FULL_RUN) || sep == [0]
    ensures EndsOnFullBlock(run + sep + t) == EndsOnFullBlock(t)
  {
    var m, r := run + sep + t, TrailingRun(t);
    if r < |t| || sep == [0] {
      TrailingRunIs(m, r);
    } else {
      TrailingRunIs(m, |m|);
    }
  }

  lemma ShortRunIsNotFull(run: seq<byte>)
    requires run != [] && ZeroFree(run)
    ensures |run| < FULL_RUN ==> !EndsOnFullBlock(run)
    ensures |run| == FULL_RUN ==> EndsOnFullBlock(run)
  {
    TrailingRunIs(run, |run|);
  }

  lemma BlockAppend(c: nat, run: seq<byte>, tail: seq<byte>, x: seq<byte>)
    requires 1 <= c <= 255 && |run| == c - 1
    ensures Block(c, run, tail + x) == Block(c, run, tail) + x
  {
  }

  /** `e` is the encoder's body for `m`, or that with a spare empty block at the end. */
  ghost predicate BodyFor(e: seq<byte>, m: seq<byte>) {
    e == Stuff(m) || (m != [] && EndsOnFullBlock(m) && e == Stuff(m) + [1])
  }

  lemma BodyOfLastBlock(c: nat, run: seq<byte>)
    requires 1 <= c <= 255 && |run| == c - 1 && ZeroFree(run)
    ensures BodyFor(Block(c, run, []), run)
  {
    if c == 255 {
      StuffFullRun(run, []);
      assert run + [] == run;
    } else {
      StuffLastRun(run);
    }
  }

  lemma BodyOfZeroBlock(c: nat, run: seq<byte>, tail: seq<byte>, t: seq<byte>)
    requires 1 <= c < 255 && |run| == c - 1 && ZeroFree(run) && BodyFor(tail, t)
    ensures BodyFor(Block(c, run, tail), run + [0] + t)
  {
    StuffUpToZero(run, t);
    if t != [] {
      EndsLikeItsTail(run, [0], t);
    }
    BlockAppend(c, run, Stuff(t), [1]);
  }

  lemma BodyOfFullBlock(run: seq<byte>, tail: seq<byte>, t: seq<byte>)
    requires |run| == FULL_RUN && ZeroFree(run) && BodyFor(tail, t)
    ensures BodyFor(Block(255, run, tail), run + t)
  {
    StuffFullRun(run, t);
    if t == [] {
      assert Stuff([]) == [1] && run + t == run;
      ShortRunIsNotFull(run);
      BlockAppend(255, run, [], [1]);
      assert [] + [1] == tail;
    } else {
      assert run + [] + t == run + t;
      EndsLikeItsTail(run, [], t);
      BlockAppend(255, run, Stuff(t), [1]);
    }
  }

  /** Everything that decodes to a message is one of its bodies. */
  lemma {:induction false} DecodedForms(e: seq<byte>, m: seq<byte>)
    requires e != [] && ZeroFree(e) && Decode(e) == Some(m)
    ensures BodyFor(e, m)
    decreases |e|
  {
    hide Stuff, Decode, EndsOnFullBlock, Block;
    DecodeHead(e);
    var c := e[0] as int;
    var run, tail := e[1..c], e[c..];
    var t := Decode(tail).value;
    if tail == [] {
      NothingDecodes();
      assert run + [] + [] == run;
      BodyOfLastBlock(c, run);
    } else {
      DecodedForms(tail, t);
      if c < 255 {
        BodyOfZeroBlock(c, run, tail, t);
      } else {
        assert run + [] + t == run + t;
        BodyOfFullBlock(run, tail, t);
      }
    }
  }

  lemma EmptyBlockDecodes()
    ensures Decode([1]) == Some([])
  {
    DecodeBlock(1, [], []);
    assert Block(1, [], []) == [1];
  }

  lemma NotOnZero(m: seq<byte>)
    requires m != [] && EndsOnFullBlock(m)
    ensures m[|m| - 1] != 0
  {
  }

  /** The spare block is harmless where it can occur. */
  lemma {:induction false} SpareBlockDecodes(m: seq<byte>)
    requires m != [] && EndsOnFullBlock(m)
    ensures Decode(Stuff(m) + [1]) == Some(m)
    decreases |m|
  {
    hide Stuff, Decode, EndsOnFullBlock, Block;
    NotOnZero(m);
    var n := Run(m, FULL_RUN);
    var run := m[..n];
    if n == |m| < FULL_RUN {
      ShortRunIsNotFull(m);
    } else if n < FULL_RUN {
      var t := m[n + 1..];
      assert m == run + [0] + t;
      EndsLikeItsTail(run, [0], t);
      SpareBlockDecodes(t);
      StuffUpToZero(run, t);
      BlockAppend(n + 1, run, Stuff(t), [1]);
      DecodeBlock(n + 1, run, Stuff(t) + [1]);
    } else {
      var t := m[n..];
      assert m == run + t && run + [] + t == run + t;
      StuffFullRun(run, t);
      if t == [] {
        EmptyBlockDecodes();
        BlockAppend(255, run, [], [1]);
        assert [] + [1] == [1] && run + [] + [] == run;
        DecodeBlock(255, run, [1]);
      } else {
        EndsLikeItsTail(run, [], t);
        SpareBlockDecodes(t);
        BlockAppend(255, run, Stuff(t), [1]);
        DecodeBlock(255, run, Stuff(t) + [1]);
      }
    }
  }

  /**
   * Exactly which frame bodies stand for `m`: the encoder's, and, when the last block of `m` is full (or there is no
   * block), that one with an empty block appended.
   */
  lemma FramesOf(e: seq<byte>, m: seq<byte>)
    requires ZeroFree(e)
    ensures Decode(e) == Some(m) <==> e == Encode(m) || (EndsOnFullBlock(m) && e == Encode(m) + [1])
  {
    RoundTrip(m);
    StuffOfNothing();
    if Decode(e) == Some(m) && e != [] {
      DecodedForms(e, m);
    }
    if m == [] {
      EmptyBlockDecodes();
      assert Encode(m) + [1] == [1];
    } else if EndsOnFullBlock(m) {
      SpareBlockDecodes(m);
    }
  }

  lemma StuffOfNothing()
    ensures Stuff([]) == [1]
  {
  }

  /** A zero-free message of exactly one full block is that block: no code byte follows it. */
  lemma FullBlockStandsAlone(m: seq<byte>)
    requires ZeroFree(m) && |m| == 254
    ensures Encode(m) == [255] + m
  {
    StuffFullRun(m, []);
    assert m + [] == m && [255] + m + [] == [255] + m;
  }

  /** The bodies of a zero and of a one, and a body with three zeros in it. */
  lemma PublishedBodies()
    ensures Encode([]) == []
    ensures Encode([0]) == [1, 1]
    ensures Encode([1]) == [2, 1]
    ensures Decode([1, 1, 2, 1, 1]) == Some([0, 0, 1, 0])
  {
    hide Stuff, Decode;
    StuffUpToZero([], []);
    StuffOfNothing();
    assert [] + [0] + [] == [0] && Block(1, [], [1]) == [1, 1];
    StuffLastRun([1]);
    assert Block(2, [1], []) == [2, 1];
    PublishedFrame();
  }

  lemma PublishedFrame()
    ensures Decode([1, 1, 2, 1, 1]) == Some([0, 0, 1, 0])
  {
    hide Decode;
    var none: seq<byte> := [];
    assert none + none + none == none && none + [0] + [1, 0] == [0, 1, 0];
    NothingDecodes();
    DecodeBlock(1, [], []);
    assert Block(1, [], []) == [1];
    DecodeBlock(2, [1], [1]);
    assert Block(2, [1], [1]) == [2, 1, 1] && [1] + [0] + [] == [1, 0];
    DecodeBlock(1, [], [2, 1, 1]);
    assert Block(1, [], [2, 1, 1]) == [1, 2, 1, 1] && [] + [0] + [1, 0] == [0, 1, 0];
    DecodeBlock(1, [], [1, 2, 1, 1]);
    assert Block(1, [], [1, 2, 1, 1]) == [1, 1, 2, 1, 1] && [] + [0] + [0, 1, 0] == [0, 0, 1, 0];
  }
}
