/** The serial line's framing: COBS bodies, each closed by a zero. */
module CobsFraming {
  import opened Bytes
  import opened Delimiters
  import opened Cobs

  datatype Error = CobsProtocol

  datatype Report = Report(srcUsed: nat, dstUsed: nat)

  const ZERO: seq<byte> := [0]

  /** Where the first zero is, or the end. */
  function FrameEnd(s: seq<byte>): (r: nat)
    ensures r <= |s| && (forall i :: 0 <= i < r ==> s[i] != 0) && (r == |s| || s[r] == 0)
  {
    if s == [] || s[0] == 0 then 0 else 1 + FrameEnd(s[1..])
  }

  predicate EndsWith(s: seq<byte>, t: seq<byte>) {
    |t| <= |s| && s[|s| - |t|..] == t
  }

  /** The bytes a reader at the end of the stream still has in front of it, counting a terminator it has to supply. */
  function Unread(s: seq<byte>): (r: nat) {
    |s| + if s != [] && s[|s| - 1] != 0 then 1 else 0
  }

  /** The bytes on the wire for one message. */
  function Frame(m: seq<byte>): (r: seq<byte>) {
    Encode(m) + ZERO
  }

  /** What one frame body is reported as. */
  function Report1(body: seq<byte>): (r: Result<seq<byte>, Error>) {
    match Decode(body)
    case Some(m) => Ok(m)
    case None => Err(CobsProtocol)
  }

  function Reports(bodies: seq<seq<byte>>): (r: seq<Result<seq<byte>, Error>>)
    ensures |r| == |bodies|
  {
    seq(|bodies|, i requires 0 <= i < |bodies| => Report1(bodies[i]))
  }

  ghost predicate AllValid(bodies: seq<seq<byte>>) {
    forall i :: 0 <= i < |bodies| ==> Decode(bodies[i]).Some?
  }

  /** `s` with `b` written over what was at `p`. */
  function Overwrite(s: seq<byte>, p: nat, b: seq<byte>): (r: seq<byte>)
    requires p + |b| <= |s|
    ensures |r| == |s|
  {
    s[..p] + b + s[p + |b|..]
  }

  lemma RunOn(rest: seq<byte>, run: nat)
    requires run < |rest| && run < FULL_RUN && rest[run] != 0
    ensures Run(rest[run..], FULL_RUN - run) == 1 + Run(rest[run + 1..], FULL_RUN - run - 1)
  {
    assert rest[run..][1..] == rest[run + 1..];
  }

  lemma RunOver(rest: seq<byte>, run: nat)
    requires run <= |rest| && run <= FULL_RUN
    ensures run == |rest| || run == FULL_RUN || rest[run] == 0 ==> Run(rest[run..], FULL_RUN - run) == 0
  {
  }

  /** Writes the first block of `rest` at `p`: the run, led by its code byte, which is filled in last. */
  method PutBlock(rest: seq<byte>, dst: BytesMut, p: nat) returns (run: nat)
    requires p + 1 + Run(rest, FULL_RUN) <= |dst.data|
    modifies dst
    ensures run == Run(rest, FULL_RUN)
    ensures dst.data == Overwrite(old(dst.data), p, FirstBlock(rest).block)
  {
    hide Run;
    run := 0;
    assert rest[0..] == rest;
    while run < |rest| && rest[run] != 0 && run < FULL_RUN
      invariant run <= FULL_RUN && run <= |rest|
      invariant run + Run(rest[run..], FULL_RUN - run) == Run(rest, FULL_RUN)
      invariant |dst.data| == |old(dst.data)|
      invariant forall k :: 0 <= k < |dst.data| ==>
                  dst.data[k] == if p + 1 <= k < p + 1 + run then rest[k - p - 1] else old(dst.data)[k]
    {
      RunOn(rest, run);
      dst.Set(p + 1 + run, rest[run]);
      run := run + 1;
    }
    RunOver(rest, run);
    dst.Set(p, (run + 1) as byte);
    OverwriteIs(old(dst.data), dst.data, p, [(run + 1) as byte] + rest[..run]);
  }

  lemma OverwriteIs(s: seq<byte>, t: seq<byte>, p: nat, b: seq<byte>)
    requires p + |b| <= |s| == |t|
    requires forall k :: 0 <= k < |s| ==> t[k] == if p <= k < p + |b| then b[k - p] else s[k]
    ensures t == Overwrite(s, p, b)
  {
  }

  lemma OverwriteNothing(s: seq<byte>, p: nat)
    requires p <= |s|
    ensures Overwrite(s, p, []) == s
  {
  }

  lemma OverwriteTwice(s: seq<byte>, p: nat, a: seq<byte>, b: seq<byte>)
    requires p + |a| + |b| <= |s|
    ensures Overwrite(Overwrite(s, p, a), p + |a|, b) == Overwrite(s, p, a + b)
  {
  }

  /** `done` is the part of the body written when the encoder stands at `i`. */
  ghost predicate Written(item: seq<byte>, i: nat, pending: bool, done: seq<byte>) {
    && i <= |item|
    && Encode(item) == done + if pending then Stuff(item[i..]) else []
  }

  lemma WrittenStart(item: seq<byte>)
    ensures Written(item, 0, item != [], [])
  {
    assert item[0..] == item;
  }

  lemma WrittenStep(item: seq<byte>, i: nat, done: seq<byte>)
    requires Written(item, i, true, done)
    ensures var b := FirstBlock(item[i..]);
            && |done| + |b.block| <= |Encode(item)|
            && Written(item, i + b.used, b.more, done + b.block)
  {
    var b := FirstBlock(item[i..]);
    assert item[i..][b.used..] == item[i + b.used..];
    ConcatAssociates(done, b.block, if b.more then Stuff(item[i + b.used..]) else []);
  }

  /** Writes the body for `item` at `at`, in the space reserved there. */
  method StuffInto(item: seq<byte>, dst: BytesMut, at: nat) returns (count: nat)
    requires |dst.data| == at + MaxEncodedLength(|item|)
    modifies dst
    ensures count == |Encode(item)| <= MaxEncodedLength(|item|)
    ensures dst.data == Overwrite(old(dst.data), at, Encode(item))
  {
    hide Stuff, Encode, Run, Overwrite;
    EncodedLength(item);
    WrittenStart(item);
    OverwriteNothing(dst.data, at);
    var i, pending := 0, item != [];
    count := 0;
    ghost var done: seq<byte> := [];
    while pending
      invariant Written(item, i, pending, done)
      invariant count == |done| <= |Encode(item)|
      invariant dst.data == Overwrite(old(dst.data), at, done)
      decreases |item| - i, pending
    {
      WrittenStep(item, i, done);
      ghost var b := FirstBlock(item[i..]);
      OverwriteTwice(old(dst.data), at, done, b.block);
      var run := PutBlock(item[i..], dst, at + count);
      done := done + b.block;
      count := count + 1 + run;
      i := i + run;
      if run == FULL_RUN {
        pending := i < |item|;
      } else if i == |item| {
        pending := false;
      } else {
        i := i + 1;
      }
    }
    assert done + [] == done;
  }

  /** The position of the first zero, or the end. */
  method Position(data: seq<byte>) returns (n: nat)
    ensures n == FrameEnd(data)
  {
    n := 0;
    assert data[0..] == data;
    while n < |data| && data[n] != 0
      invariant n <= |data| && n + FrameEnd(data[n..]) == FrameEnd(data)
    {
      assert data[n..][1..] == data[n + 1..];
      n := n + 1;
    }
  }

  /** Decoding the first `s` bytes of `e` gave `out`; the rest of `e` decides whether the whole decodes. */
  ghost predicate DecodedSoFar(e: seq<byte>, s: nat, out: seq<byte>) {
    && s <= |e| && |out| <= s
    && Decode(e) == match Decode(e[s..]) case None => None case Some(t) => Some(out + t)
  }

  lemma DecodedStart(e: seq<byte>)
    ensures DecodedSoFar(e, 0, [])
  {
    hide Decode;
    assert e[0..] == e;
    if Decode(e).Some? {
      assert [] + Decode(e).value == Decode(e).value;
    }
  }

  lemma DecodedStep(e: seq<byte>, s: nat, out: seq<byte>)
    requires DecodedSoFar(e, s, out) && s < |e| && e[s] != 0
    ensures var c := e[s] as int;
            if s + c > |e| then Decode(e) == None
            else DecodedSoFar(e, s + c, out + (e[s + 1..s + c] + Separator(c, s + c == |e|)))
  {
    hide *;
    var c := e[s] as int;
    BlockAt(e, s, c);
    if s + c <= |e| {
      DecodedCompose(e, s, out, e[s + 1..s + c] + Separator(c, s + c == |e|), s + c);
    } else {
      DecodedFails(e, s, out);
    }
  }

  lemma DecodedFails(e: seq<byte>, s: nat, out: seq<byte>)
    requires DecodedSoFar(e, s, out) && Decode(e[s..]) == None
    ensures Decode(e) == None
  {
  }

  lemma BlockAt(e: seq<byte>, s: nat, c: nat)
    requires s < |e| && e[s] as int == c && c >= 1
    ensures s + c > |e| ==> Decode(e[s..]) == None
    ensures s + c <= |e| ==>
              Decode(e[s..]) ==
              match Decode(e[s + c..])
              case None => None
              case Some(t) => Some(e[s + 1..s + c] + Separator(c, s + c == |e|) + t)
  {
    hide Decode;
    var rest := e[s..];
    OneBlock(rest, c);
    if s + c <= |e| {
      assert rest[c..] == e[s + c..];
      assert rest[1..c] == e[s + 1..s + c];
    }
  }

  lemma DecodedCompose(e: seq<byte>, s: nat, out: seq<byte>, mid: seq<byte>, s': nat)
    requires DecodedSoFar(e, s, out) && s <= s' <= |e| && |mid| <= s' - s
    requires Decode(e[s..]) == match Decode(e[s'..]) case None => None case Some(t) => Some(mid + t)
    ensures DecodedSoFar(e, s', out + mid)
  {
    hide Decode;
    if Decode(e[s'..]).Some? {
      ConcatAssociates(out, mid, Decode(e[s'..]).value);
    }
  }

  lemma OneBlock(e: seq<byte>, c: nat)
    requires e != [] && e[0] as int == c && c >= 1
    ensures c > |e| ==> Decode(e) == None
    ensures c <= |e| ==>
              Decode(e) ==
              match Decode(e[c..])
              case None => None
              case Some(t) => Some(e[1..c] + Separator(c, c == |e|) + t)
  {
  }

  lemma DecodedEnd(e: seq<byte>, out: seq<byte>)
    requires DecodedSoFar(e, |e|, out)
    ensures Decode(e) == Some(out)
  {
    assert e[|e|..] == [] && out + [] == out;
  }

  /** Copies `n` bytes from `s` down to `d`, one at a time and front to back. */
  method MoveBlock(src: BytesMut, s: nat, d: nat, n: nat) returns (s': nat, d': nat)
    requires d < s && s + n <= |src.data|
    modifies src
    ensures s' == s + n && d' == d + n && |src.data| == |old(src.data)|
    ensures src.data[..d'] == old(src.data)[..d] + old(src.data)[s..s']
    ensures forall i :: s' <= i < |src.data| ==> src.data[i] == old(src.data)[i]
  {
    s', d' := s, d;
    for k := 0 to n
      invariant s' == s + k && d' == d + k && |src.data| == |old(src.data)|
      invariant forall i :: 0 <= i < d ==> src.data[i] == old(src.data)[i]
      invariant forall i :: d <= i < d' ==> src.data[i] == old(src.data)[i + (s - d)]
      invariant forall i :: s' <= i < |src.data| ==> src.data[i] == old(src.data)[i]
    {
      src.Set(d', src.data[s']);
      d' := d' + 1;
      s' := s' + 1;
    }
  }

  /** Copies the block at `s` down to `d`, and writes the zero it stands for. */
  method UnstuffBlock(src: BytesMut, s: nat, d: nat, code: nat, end: nat) returns (s': nat, d': nat)
    requires d <= s && code >= 1 && s + code <= end <= |src.data|
    modifies src
    ensures s' == s + code && d' == d + |old(src.data)[s + 1..s']| + |Separator(code, s' == end)| <= s'
    ensures |src.data| == |old(src.data)|
    ensures src.data[..d'] == old(src.data)[..d] + (old(src.data)[s + 1..s'] + Separator(code, s' == end))
    ensures forall i :: s' <= i < |src.data| ==> src.data[i] == old(src.data)[i]
  {
    s', d' := MoveBlock(src, s + 1, d, code - 1);
    if code != 255 && s' < end {
      src.Set(d', 0);
      d' := d' + 1;
    }
  }

  /**
   * Decodes the frame at the front of `src` over itself: the message overwrites the bytes it was read from. Nothing at
   * or after the terminator is touched, whether or not the frame is well formed.
   */
  method DecodeInPlace(src: BytesMut) returns (r: Option<Report>)
    modifies src
    ensures |src.data| == |old(src.data)|
    ensures src.data[FrameEnd(old(src.data))..] == old(src.data)[FrameEnd(old(src.data))..]
    ensures match Decode(old(src.data)[..FrameEnd(old(src.data))])
            case None => r.None?
            case Some(m) => && r == Some(Report(FrameEnd(old(src.data)), |m|))
                            && |m| <= FrameEnd(old(src.data)) && src.data[..|m|] == m
  {
    hide Decode;
    var end := Position(src.data);
    ghost var input := src.data;
    ghost var e, out: seq<byte> := input[..end], [];
    var s, d := 0, 0;
    DecodedStart(e);
    while s < end
      invariant d <= s <= end <= |src.data| == |input|
      invariant forall i :: s <= i < |input| ==> src.data[i] == input[i]
      invariant d == |out| && src.data[..d] == out
      invariant DecodedSoFar(e, s, out)
      decreases end - s
    {
      var code := src.data[s] as int;
      assert code == e[s] as int && code != 0;
      DecodedStep(e, s, out);
      if s + code > end && code != 1 {
        return None;
      }
      SameSlice(src.data, e, s + 1, s + code);
      out := out + (e[s + 1..s + code] + Separator(code, s + code == end));
      s, d := UnstuffBlock(src, s, d, code, end);
    }
    DecodedEnd(e, out);
    return Some(Report(s, d));
  }

  lemma SameSlice(a: seq<byte>, b: seq<byte>, lo: nat, hi: nat)
    requires lo <= hi <= |a| && hi <= |b|
    requires forall i :: lo <= i < hi ==> a[i] == b[i]
    ensures a[lo..hi] == b[lo..hi]
  {
  }

  /** What was decoded in place still ends in the same terminator and what follows it. */
  lemma TerminatorStays(was: seq<byte>, data: seq<byte>, end: nat)
    requires end < |was| == |data| && was[end] == 0 && data[end..] == was[end..]
    ensures data[end] == 0 && ZERO <= data[end..] && data[end + 1..] == was[end + 1..]
    ensures forall n: nat :: n <= end ==> data[..end + 1][..n] == data[..n]
  {
    assert data[end..][0] == was[end..][0];
    assert data[end..][1..] == was[end..][1..];
  }

  /** Skipping to the first zero of what an error left behind never goes past the terminator. */
  lemma DroppedToZero(was: seq<byte>, data: seq<byte>, end: nat, pos: nat)
    requires end < |was| == |data| && data[end] == 0 && data[end..] == was[end..]
    requires pos == FrameEnd(data)
    ensures pos < |data|
    ensures data[pos + 1..] == was[end + 1..] || EndsWith(data[pos + 1..], was[end..])
  {
    if pos == end {
      assert data[end..][1..] == was[end..][1..];
    } else {
      assert data[pos + 1..][end - pos - 1..] == data[end..];
    }
  }

  class CobsCodec {
    constructor () {}

    /** Appends the frame for `item`: reserve, stuff, cut back to what was used and one zero. */
    method Encode(item: seq<byte>, dst: BytesMut)
      modifies dst
      ensures dst.data == old(dst.data) + Frame(item)
    {
      hide Stuff, Cobs.Encode;
      var oldLen := |dst.data|;
      dst.Resize(oldLen + MaxEncodedLength(|item|), 0);
      var count := StuffInto(item, dst, oldLen);
      dst.Resize(oldLen + count + 1, 0);
    }

    /** Takes the first frame off `src` once its terminator is there. */
    method Decode(src: BytesMut) returns (r: Option<Result<seq<byte>, Error>>)
      modifies src
      ensures var end := FrameEnd(old(src.data));
              if end == |old(src.data)| then
                r == None && src.data == old(src.data)
              else
                && r == Some(Report1(old(src.data)[..end]))
                && |src.data| < |old(src.data)|
                && (r.value.Ok? ==> src.data == old(src.data)[end + 1..])
                && (src.data == old(src.data)[end + 1..] || EndsWith(src.data, old(src.data)[end..]))
    {
      hide Cobs.Decode, FrameEnd, EndsWith;
      var end := Position(src.data);
      if end == |src.data| {
        return None;
      }
      ghost var was := src.data;
      var report := DecodeInPlace(src);
      TerminatorStays(was, src.data, end);
      if report.None? {
        var pos := Position(src.data);
        DroppedToZero(was, src.data, end, pos);
        src.Advance(pos + 1);
        return Some(Err(CobsProtocol));
      }
      var nextZero := if ZERO <= src.data[report.value.srcUsed..] then 1 else 0;
      var result := src.SplitTo(report.value.srcUsed + nextZero);
      result := result[..report.value.dstUsed];
      return Some(Ok(result));
    }

    /** At end of stream a missing last terminator is supplied; then the first frame is taken off as ever. */
    method DecodeEof(buf: BytesMut) returns (r: Option<Result<seq<byte>, Error>>)
      modifies buf
      ensures r == if old(buf.data) == [] then None else Some(Report1(old(buf.data)[..FrameEnd(old(buf.data))]))
      ensures r.None? ==> buf.data == []
      ensures r.Some? ==> |Closed(old(buf.data))| > FrameEnd(old(buf.data)) && Unread(buf.data) < Unread(old(buf.data))
      ensures r.Some? && r.value.Ok? ==> buf.data == Closed(old(buf.data))[FrameEnd(old(buf.data)) + 1..]
    {
      hide Cobs.Decode, FrameEnd, Report1;
      ClosedHasFrame(buf.data);
      if buf.data != [] && buf.data[|buf.data| - 1] != 0 {
        buf.Resize(|buf.data| + 1, 0);
        assert buf.data == old(buf.data) + [0];
      }
      ghost var full := buf.data;
      r := Decode(buf);
      if r.Some? && buf.data != [] {
        assert buf.data[|buf.data| - 1] == full[|full| - 1];
      }
    }
  }

  /** `s` with the terminator that its last frame may be missing. */
  function Closed(s: seq<byte>): (r: seq<byte>) {
    if s != [] && s[|s| - 1] != 0 then s + [0] else s
  }

  lemma ClosedHasFrame(s: seq<byte>)
    ensures FrameEnd(Closed(s)) == FrameEnd(s) && Closed(s)[..FrameEnd(s)] == s[..FrameEnd(s)]
    ensures s == [] || FrameEnd(s) < |Closed(s)|
  {
    var end := FrameEnd(s);
    if s != [] && s[|s| - 1] != 0 {
      assert Closed(s) == s[..end] + (s[end..] + [0]);
      FrameEndOf(s[..end], s[end..] + [0]);
    }
  }

  lemma FrameEndOf(body: seq<byte>, t: seq<byte>)
    requires ZeroFree(body) && t != [] && t[0] == 0
    ensures FrameEnd(body + t) == |body|
  {
    var s := body + t;
    assert s[|body|] == 0;
    assert forall i :: 0 <= i < |body| ==> s[i] == body[i];
  }

  /** The frames of a zero-delimited stream. */
  lemma FirstFrame(s: seq<byte>)
    ensures var end := FrameEnd(s);
            Split(ZERO, s) ==
            if end == |s| then Cut([], s)
            else Cut([s[..end]] + Split(ZERO, s[end + 1..]).parts, Split(ZERO, s[end + 1..]).rest)
  {
    hide FrameEnd;
    var end := FrameEnd(s);
    OccursIsZero(s);
    if end < |s| {
      FirstIsUnique(ZERO, s, end);
    }
  }

  lemma OccursIsZero(s: seq<byte>)
    ensures forall i: nat :: OccursAt(ZERO, s, i) <==> i < |s| && s[i] == 0
  {
    forall i: nat
      ensures OccursAt(ZERO, s, i) <==> i < |s| && s[i] == 0
    {
      if i < |s| {
        assert s[i..i + 1] == [s[i]];
      }
    }
  }

  /** Every complete frame of `s` and the unterminated rest decode. */
  ghost predicate WellFormed(s: seq<byte>) {
    AllValid(Split(ZERO, s).parts) && Decode(Split(ZERO, s).rest).Some?
  }

  /** What a whole stream is reported as; the rest counts as a frame unless it is empty. */
  function Reported(s: seq<byte>): (r: seq<Result<seq<byte>, Error>>) {
    var c := Split(ZERO, s);
    Reports(c.parts) + if c.rest == [] then [] else [Report1(c.rest)]
  }

  lemma ReportsAppend(a: seq<seq<byte>>, b: seq<seq<byte>>)
    ensures Reports(a + b) == Reports(a) + Reports(b)
    ensures AllValid(a + b) <==> AllValid(a) && AllValid(b)
  {
    if AllValid(a + b) {
      assert forall i :: 0 <= i < |a| ==> (a + b)[i] == a[i];
      assert forall i :: 0 <= i < |b| ==> (a + b)[|a| + i] == b[i];
    }
  }

  /** The frames before the first that does not decode. */
  function Good(bodies: seq<seq<byte>>): (r: seq<seq<byte>>)
    ensures r <= bodies && AllValid(r)
  {
    if bodies == [] || Decode(bodies[0]).None? then []
    else
      var rest := Good(bodies[1..]);
      assert forall i :: 0 < i <= |rest| ==> ([bodies[0]] + rest)[i] == rest[i - 1];
      [bodies[0]] + rest
  }

  lemma {:induction false} GoodAppend(a: seq<seq<byte>>, b: seq<seq<byte>>)
    ensures Good(a + b) == if AllValid(a) then a + Good(b) else Good(a)
  {
    hide Decode;
    if a == [] {
      assert a + b == b && a + Good(b) == Good(b);
    } else {
      assert (a + b)[1..] == a[1..] + b && (a + b)[0] == a[0];
      ReportsAppend([a[0]], a[1..]);
      assert [a[0]] + a[1..] == a;
      GoodAppend(a[1..], b);
      if AllValid(a) { ConcatAssociates([a[0]], a[1..], Good(b)); }
    }
  }

  lemma GoodOfNone(a: seq<seq<byte>>)
    ensures AllValid(a) ==> Good(a) == a
    ensures !AllValid(a) ==> forall b :: Good(a + b) == Good(a)
  {
    hide Decode, Good;
    GoodAppend(a, []);
    assert a + [] == a;
    GoodNothing();
    if !AllValid(a) {
      forall b ensures Good(a + b) == Good(a) { GoodAppend(a, b); }
    }
  }

  lemma GoodNothing()
    ensures Good([]) == []
  {
  }

  /** Calls `Decode` until it asks for more input. */
  method Drain(codec: CobsCodec, src: BytesMut) returns (out: seq<Result<seq<byte>, Error>>)
    modifies src
    ensures FrameEnd(src.data) == |src.data|
    ensures var c := Split(ZERO, old(src.data));
            && Reports(Good(c.parts)) <= out
            && (AllValid(c.parts) ==> out == Reports(c.parts) && src.data == c.rest)
  {
    hide Split, Decode, FrameEnd, Report1, Good, Reports;
    ghost var c := Split(ZERO, src.data);
    ghost var done: seq<seq<byte>>, todo, sound := [], c, true;
    out := [];
    NothingReported();
    GoodOfNone(c.parts);
    while true
      invariant sound ==>
                  && c.parts == done + todo.parts && AllValid(done) && out == Reports(done)
                  && todo == Split(ZERO, src.data) && todo.rest == c.rest
      invariant !sound ==> !AllValid(c.parts) && Reports(Good(c.parts)) <= out
      decreases |src.data|
    {
      FirstFrame(src.data);
      ghost var end := FrameEnd(src.data);
      ghost var was := src.data;
      var r := codec.Decode(src);
      if r.None? {
        if sound { assert done + [] == done; }
        return;
      }
      if sound {
        var first := was[..end];
        todo := Split(ZERO, was[end + 1..]);
        sound := r.value.Ok?;
        ConcatAssociates(done, [first], todo.parts);
        NextReport(done, first, todo.parts);
        done := done + [first];
      }
      out := out + [r.value];
    }
  }

  lemma NothingReported()
    ensures Reports([]) == []
  {
  }

  /** One more frame after sound ones: sound itself, or the end of what is vouched for. */
  lemma NextReport(done: seq<seq<byte>>, first: seq<byte>, rest: seq<seq<byte>>)
    requires AllValid(done)
    ensures Reports(done + [first]) == Reports(done) + [Report1(first)]
    ensures Report1(first).Ok? <==> AllValid(done + [first])
    ensures Report1(first).Err? ==> !AllValid(done + [first] + rest) && Good(done + [first] + rest) == done
  {
    hide Decode, Good;
    ReportsAppend(done, [first]);
    assert Reports([first]) == [Report1(first)];
    assert [first][0] == first;
    if Report1(first).Err? {
      ReportsAppend(done + [first], rest);
      GoodAppend(done, [first] + rest);
      ConcatAssociates(done, [first], rest);
      GoodStops(first, rest);
      assert done + [] == done;
    }
  }

  lemma GoodStops(first: seq<byte>, rest: seq<seq<byte>>)
    requires Report1(first).Err?
    ensures Good([first] + rest) == []
  {
  }

  lemma FlattenNone()
    ensures Flatten<byte>([]) == []
  {
  }

  /** A framed reader over a byte source that delivers `chunks` and then ends. */
  method DecodeStream(chunks: seq<seq<byte>>) returns (out: seq<Result<seq<byte>, Error>>)
    ensures WellFormed(Flatten(chunks)) ==> out == Reported(Flatten(chunks))
    ensures Reports(Good(Split(ZERO, Flatten(chunks)).parts)) <= out
  {
    hide Split, Decode, FrameEnd, Good, Reports, Flatten;
    var codec := new CobsCodec();
    var src := new BytesMut();
    out := [];
    ghost var s: seq<byte> := [];
    FirstFrame(s);
    NothingReported();
    GoodNothing();
    FlattenNone();
    for i := 0 to |chunks|
      invariant s == Flatten(chunks[..i])
      invariant AllValid(Split(ZERO, s).parts) ==>
                  out == Reports(Split(ZERO, s).parts) && src.data == Split(ZERO, s).rest
      invariant Reports(Good(Split(ZERO, s).parts)) <= out
      invariant FrameEnd(src.data) == |src.data|
    {
      src.Put(chunks[i]);
      var more := Drain(codec, src);
      SplitExtend(ZERO, s, chunks[i]);
      ghost var before, after := Split(ZERO, s).parts, Split(ZERO, Split(ZERO, s).rest + chunks[i]).parts;
      ReportsAppend(before, after);
      ReportsAppend(before, Good(after));
      GoodAppend(before, after);
      out := out + more;
      assert chunks[..i + 1] == chunks[..i] + [chunks[i]];
      FlattenAppend(chunks[..i], [chunks[i]]);
      FlattenOne(chunks[i]);
      s := s + chunks[i];
    }
    assert chunks[..|chunks|] == chunks;
    var last := DrainEof(codec, src);
    out := out + last;
  }

  lemma LastFrame(s: seq<byte>)
    requires s != [] && FrameEnd(s) == |s|
    ensures s[..FrameEnd(s)] == s && |Closed(s)| == |s| + 1 && Closed(s)[FrameEnd(s) + 1..] == []
  {
    assert Closed(s) == s + [0];
  }

  /** Calls `DecodeEof` until the stream is over. */
  method DrainEof(codec: CobsCodec, src: BytesMut) returns (out: seq<Result<seq<byte>, Error>>)
    requires FrameEnd(src.data) == |src.data|
    modifies src
    ensures Decode(old(src.data)).Some? ==>
              out == if old(src.data) == [] then [] else [Report1(old(src.data))]
  {
    out := [];
    while true
      invariant out == [] ==> src.data == old(src.data)
      invariant out != [] && Decode(old(src.data)).Some? ==> src.data == [] && out == [Report1(old(src.data))]
      invariant out != [] ==> old(src.data) != []
      decreases Unread(src.data)
    {
      hide Decode, FrameEnd;
      if out == [] && src.data != [] { LastFrame(src.data); }
      var r := codec.DecodeEof(src);
      if r.None? {
        return;
      }
      out := out + [r.value];
    }
  }

  function Bodies(ms: seq<seq<byte>>): (r: seq<seq<byte>>)
    ensures |r| == |ms| && forall i :: 0 <= i < |ms| ==> r[i] == Encode(ms[i])
  {
    seq(|ms|, i requires 0 <= i < |ms| => Encode(ms[i]))
  }

  lemma JoinNone()
    ensures Join(Bodies([]), ZERO) == []
  {
  }

  /** Sends `ms` down the line: one frame after the other. */
  method EncodeStream(ms: seq<seq<byte>>) returns (wire: seq<byte>)
    ensures wire == Join(Bodies(ms), ZERO)
  {
    hide Encode, Join;
    var codec := new CobsCodec();
    var dst := new BytesMut();
    JoinNone();
    for i := 0 to |ms|
      invariant dst.data == Join(Bodies(ms[..i]), ZERO)
    {
      codec.Encode(ms[i], dst);
      assert Bodies(ms[..i + 1]) == Bodies(ms[..i]) + [Encode(ms[i])];
      JoinAppend(Bodies(ms[..i]), [Encode(ms[i])], ZERO);
      JoinOne(Encode(ms[i]), ZERO);
    }
    assert ms[..|ms|] == ms;
    return dst.data;
  }

  function Oks(ms: seq<seq<byte>>): (r: seq<Result<seq<byte>, Error>>)
    ensures |r| == |ms| && forall i :: 0 <= i < |ms| ==> r[i] == Ok(ms[i])
  {
    seq(|ms|, i requires 0 <= i < |ms| => Ok(ms[i]))
  }

  /** A zero-free body can always be closed by a zero. */
  lemma BodyTerminable(body: seq<byte>)
    requires ZeroFree(body)
    ensures Terminable(ZERO, body)
  {
    var s := body + ZERO;
    forall j: nat | j < |body|
      ensures !OccursAt(ZERO, s, j)
    {
      assert s[j..j + 1][0] == body[j];
    }
    assert s[|body|..|body| + 1] == ZERO;
  }

  /**
   * Every list of messages, empty ones included, is reported in order and nothing else is; a last message `last` whose
   * terminator is missing is reported at the end of the stream, if its body has any bytes at all.
   */
  lemma StreamRoundTrip(ms: seq<seq<byte>>, last: seq<byte>)
    ensures var s := Join(Bodies(ms), ZERO) + Encode(last);
            WellFormed(s) && Reported(s) == Oks(if last == [] then ms else ms + [last])
  {
    hide Decode, Encode, Split;
    var s, bodies := Join(Bodies(ms), ZERO) + Encode(last), Bodies(ms);
    FramesSplit(ms, last);
    RoundTrip(last);
    EmptyBody(last);
    if last != [] {
      assert Oks(ms + [last]) == Oks(ms) + [Ok(last)];
    }
  }

  /** The frames of what was sent are the bodies that were sent. */
  lemma FramesSplit(ms: seq<seq<byte>>, last: seq<byte>)
    ensures Split(ZERO, Join(Bodies(ms), ZERO) + Encode(last)) == Cut(Bodies(ms), Encode(last))
    ensures AllValid(Bodies(ms)) && Reports(Bodies(ms)) == Oks(ms)
  {
    hide Decode, Encode, Split;
    var bodies := Bodies(ms);
    forall i | 0 <= i < |ms|
      ensures Terminable(ZERO, bodies[i]) && Decode(bodies[i]) == Some(ms[i])
    {
      RoundTrip(ms[i]);
      BodyTerminable(bodies[i]);
    }
    RoundTrip(last);
    forall j: nat
      ensures !OccursAt(ZERO, Encode(last), j)
    {
      if j < |Encode(last)| {
        assert Encode(last)[j..j + 1][0] == Encode(last)[j];
      }
    }
    SplitIsUnique(ZERO, Join(bodies, ZERO) + Encode(last), Cut(bodies, Encode(last)));
    assert Reports(bodies) == Oks(ms);
  }

  lemma CleanSplit(ms: seq<seq<byte>>)
    ensures Split(ZERO, Join(Bodies(ms), ZERO)) == Cut(Bodies(ms), [])
    ensures AllValid(Bodies(ms)) && Reports(Bodies(ms)) == Oks(ms)
  {
    hide Decode, Split;
    FramesSplit(ms, []);
    assert Join(Bodies(ms), ZERO) + [] == Join(Bodies(ms), ZERO);
  }

  lemma EmptyBody(m: seq<byte>)
    ensures Encode(m) == [] <==> m == []
  {
    StuffNonEmpty(m);
  }
}
