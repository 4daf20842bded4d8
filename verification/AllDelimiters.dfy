/** The incremental delimiter codec: a scanner that keeps its place between calls. */
module AllDelimiters {
  import opened Bytes
  import opened Delimiters

  datatype Error = InclusiveMismatch

  datatype Match = Match(start: nat, end: nat)

  datatype Attempt = Found(part: seq<byte>) | Exhausted | Advanced

  /** Whatever bytes follow, no occurrence of `d` can start at `i`: some byte of `s` already disagrees. */
  ghost predicate Dead(d: seq<byte>, s: seq<byte>, i: nat) {
    exists k: nat :: k < |d| && i + k < |s| && s[i + k] != d[k]
  }

  /** The messages handed out for `parts`: inclusive mode skips what precedes the first delimiter. */
  function Shown(d: seq<byte>, inclusive: bool, seen: bool, parts: seq<seq<byte>>): (r: seq<seq<byte>>) {
    if !inclusive then parts
    else PrependAll(d, if seen || parts == [] then parts else parts[1..])
  }

  datatype Taken = Taken(out: Option<seq<byte>>, parts: seq<seq<byte>>)

  /** The next message of `parts`, if there is one, and the parts after it. */
  function Take(d: seq<byte>, inclusive: bool, seen: bool, parts: seq<seq<byte>>): (r: Taken) {
    var skip := if inclusive && !seen then 1 else 0;
    if |parts| <= skip then Taken(None, [])
    else Taken(Some(if inclusive then d + parts[skip] else parts[skip]), parts[skip + 1..])
  }

  lemma TakeFront(d: seq<byte>, inclusive: bool, seen: bool, part: seq<byte>, parts: seq<seq<byte>>)
    ensures Take(d, inclusive, seen, [part] + parts) ==
            if inclusive && !seen then Take(d, inclusive, true, parts)
            else Taken(Some(if inclusive then d + part else part), parts)
  {
    assert ([part] + parts)[1..] == parts;
    assert parts != [] ==> ([part] + parts)[2..] == parts[1..];
  }

  /** What a whole stream decodes to, up to and including its end. */
  function Decoded(d: seq<byte>, inclusive: bool, s: seq<byte>): (r: seq<seq<byte>>)
    requires |d| > 0
  {
    var c := Split(d, s);
    Shown(d, inclusive, false, c.parts) + if inclusive && s != [] then [d + c.rest] else []
  }

  lemma SkippedAreDead(d: seq<byte>, s: seq<byte>, from: nat, n: nat)
    requires |d| > 0 && from + n <= |s|
    requires DeadBefore(d, s, from)
    requires forall i :: 0 <= i < n ==> s[from..][i] != d[0]
    ensures DeadBefore(d, s, from + n)
  {
    forall i: nat | from <= i < from + n
      ensures Dead(d, s, i)
    {
      assert s[from..][i - from] == s[i + 0] != d[0];
    }
  }

  lemma MatchAgrees(d: seq<byte>, s: seq<byte>, i: nat)
    requires OccursAt(d, s, i)
    ensures forall k :: 0 <= k < |d| ==> s[i + k] == d[k]
  {
    forall k | 0 <= k < |d|
      ensures s[i + k] == d[k]
    {
      assert s[i..i + |d|][k] == s[i + k];
    }
  }

  lemma DeadHoldsNoMatch(d: seq<byte>, s: seq<byte>, i: nat)
    requires Dead(d, s, i)
    ensures !OccursAt(d, s, i)
  {
    if OccursAt(d, s, i) {
      MatchAgrees(d, s, i);
    }
  }

  /** Dead positions stay dead while the caller only appends. */
  lemma DeadForever(d: seq<byte>, s: seq<byte>, t: seq<byte>, i: nat)
    requires Dead(d, s, i)
    ensures Dead(d, s + t, i)
  {
    var k: nat :| k < |d| && i + k < |s| && s[i + k] != d[k];
    assert (s + t)[i + k] == s[i + k];
  }

  ghost predicate DeadBefore(d: seq<byte>, s: seq<byte>, n: nat) {
    forall i: nat :: i < n ==> Dead(d, s, i)
  }

  /** The leftmost-longest match of any non-empty prefix of `d`. */
  ghost predicate LeftmostLongest(d: seq<byte>, hay: seq<byte>, m: Match)
    requires |d| > 0
  {
    && m.start < m.end <= |hay|
    && m.end - m.start <= |d|
    && hay[m.start..m.end] == d[..m.end - m.start]
    && (forall i :: 0 <= i < m.start ==> hay[i] != d[0])
    && (m.end - m.start == |d| || m.end == |hay| || hay[m.end] != d[m.end - m.start])
  }

  /** `part` is the first part of `s`, and `after` is what follows its delimiter. */
  ghost predicate CutOff(d: seq<byte>, s: seq<byte>, part: seq<byte>, after: seq<byte>)
    requires |d| > 0
  {
    Split(d, s) == Cut([part] + Split(d, after).parts, Split(d, after).rest)
  }

  lemma FullMatchIsFirst(d: seq<byte>, s: seq<byte>, from: nat, m: Match)
    requires |d| > 0 && from <= |s| && DeadBefore(d, s, from)
    requires LeftmostLongest(d, s[from..], m) && m.end - m.start == |d|
    ensures FirstFrom(d, s, 0) == Some(from + m.start)
  {
    var p := from + m.start;
    SkippedAreDead(d, s, from, m.start);
    assert s[p..p + |d|] == s[from..][m.start..m.end];
    assert OccursAt(d, s, p);
    hide LeftmostLongest, OccursAt, Dead, FirstFrom;
    forall i: nat | i < p
      ensures !OccursAt(d, s, i)
    {
      DeadHoldsNoMatch(d, s, i);
    }
    FirstIsUnique(d, s, p);
  }

  lemma FullMatchCutsOff(d: seq<byte>, s: seq<byte>, from: nat, m: Match)
    requires |d| > 0 && from <= |s| && DeadBefore(d, s, from)
    requires LeftmostLongest(d, s[from..], m) && m.end - m.start == |d|
    ensures CutOff(d, s, s[..from + m.end][..from + m.end - |d|], s[from + m.end..])
  {
    hide Split, FirstFrom, Dead;
    FullMatchIsFirst(d, s, from, m);
    SplitUnfolds(d, s, from + m.start);
    assert s[..from + m.end][..from + m.start] == s[..from + m.start];
  }

  lemma PartialMatchIsDead(d: seq<byte>, s: seq<byte>, from: nat, m: Match)
    requires |d| > 0 && from <= |s| && DeadBefore(d, s, from)
    requires LeftmostLongest(d, s[from..], m) && m.end - m.start != |d| && from + m.end != |s|
    ensures DeadBefore(d, s, from + m.start + 1)
  {
    SkippedAreDead(d, s, from, m.start);
    var k := m.end - m.start;
    assert s[from..][m.end] == s[from + m.start + k] != d[k];
    assert Dead(d, s, from + m.start);
  }

  lemma NoMatchYet(d: seq<byte>, s: seq<byte>, p: nat)
    requires |d| > 0 && p <= |s| < p + |d| && DeadBefore(d, s, p)
    ensures Split(d, s) == Cut([], s)
  {
    forall i: nat | i < p
      ensures !OccursAt(d, s, i)
    {
      DeadHoldsNoMatch(d, s, i);
    }
  }

  class AllDelimiterCodec {
    const inclusive: bool
    const delimiter: seq<byte>

    var inclusiveSeenHeader: bool
    var inclusiveTerminated: bool
    var searchFrom: nat

    /** No position before `searchFrom` can start a match, even after more bytes arrive. */
    ghost predicate Valid(buf: seq<byte>)
      reads this
    {
      && |delimiter| > 0
      && searchFrom <= |buf|
      && DeadBefore(delimiter, buf, searchFrom)
    }

    constructor (delimiter: seq<byte>, inclusive: bool)
      requires |delimiter| > 0
      ensures this.delimiter == delimiter && this.inclusive == inclusive
      ensures Valid([])
      ensures !inclusiveSeenHeader && !inclusiveTerminated
    {
      this.delimiter := delimiter;
      this.inclusive := inclusive;
      inclusiveSeenHeader := false;
      inclusiveTerminated := false;
      searchFrom := 0;
    }

    /** The Aho-Corasick search: leftmost-longest over all non-empty prefixes of the delimiter. */
    method Find(hay: seq<byte>) returns (m: Option<Match>)
      requires |delimiter| > 0
      ensures m.None? ==> forall i :: 0 <= i < |hay| ==> hay[i] != delimiter[0]
      ensures m.Some? ==> LeftmostLongest(delimiter, hay, m.value)
    {
      var i := 0;
      while i < |hay| && hay[i] != delimiter[0]
        invariant i <= |hay|
        invariant forall k :: 0 <= k < i ==> hay[k] != delimiter[0]
      {
        i := i + 1;
      }
      if i == |hay| {
        return None;
      }
      var n := 1;
      while n < |delimiter| && i + n < |hay| && hay[i + n] == delimiter[n]
        invariant 1 <= n <= |delimiter| && i + n <= |hay|
        invariant forall k :: i <= k < i + n ==> hay[k] == delimiter[k - i]
      {
        n := n + 1;
      }
      assert hay[i..i + n] == delimiter[..n];
      return Some(Match(i, i + n));
    }

    method MakeDecoded(b: seq<byte>) returns (r: seq<byte>)
      ensures r == if inclusive then delimiter + b else b
    {
      if !inclusive {
        return b;
      }
      r := delimiter + b;
    }

    method Encode(item: seq<byte>, dst: BytesMut) returns (r: Result<(), Error>)
      modifies dst
      ensures r.Err? <==> inclusive && !(delimiter <= item)
      ensures dst.data == old(dst.data) + if r.Err? then [] else if inclusive then item else item + delimiter
    {
      if inclusive && !(delimiter <= item) {
        return Err(InclusiveMismatch);
      }
      dst.Put(item);
      if !inclusive {
        dst.Put(delimiter);
      }
      return Ok(());
    }

    /** One pass through the search loop. */
    method Probe(src: BytesMut) returns (r: Attempt)
      requires Valid(src.data)
      modifies this`searchFrom, src
      ensures Valid(src.data)
      ensures match r
              case Found(part) =>
                CutOff(delimiter, old(src.data), part, src.data) && |src.data| < |old(src.data)|
              case Exhausted =>
                src.data == old(src.data) && Split(delimiter, src.data) == Cut([], src.data)
              case Advanced =>
                src.data == old(src.data) && searchFrom > old(searchFrom)
    {
      hide Split, FirstFrom, Dead, CutOff;
      var m := Find(src.data[searchFrom..]);
      match m {
        case None =>
          SkippedAreDead(delimiter, src.data, searchFrom, |src.data| - searchFrom);
          searchFrom := |src.data|;
          NoMatchYet(delimiter, src.data, searchFrom);
          return Exhausted;
        case Some(mat) =>
          if mat.end - mat.start == |delimiter| {
            FullMatchCutsOff(delimiter, src.data, searchFrom, mat);
            var result := src.SplitTo(searchFrom + mat.end);
            searchFrom := 0;
            return Found(result[..|result| - |delimiter|]);
          } else if searchFrom + mat.end == |src.data| {
            SkippedAreDead(delimiter, src.data, searchFrom, mat.start);
            searchFrom := searchFrom + mat.start;
            NoMatchYet(delimiter, src.data, searchFrom);
            return Exhausted;
          } else {
            PartialMatchIsDead(delimiter, src.data, searchFrom, mat);
            searchFrom := searchFrom + mat.start + 1;
            return Advanced;
          }
      }
    }

    /** Takes the next part off the front of `src`, if its delimiter has arrived. */
    method Decode(src: BytesMut) returns (r: Option<seq<byte>>)
      requires Valid(src.data)
      modifies this, src
      ensures Valid(src.data)
      ensures inclusiveTerminated == old(inclusiveTerminated)
      ensures var c := Split(delimiter, old(src.data));
              var t := Take(delimiter, inclusive, old(inclusiveSeenHeader), c.parts);
              && r == t.out
              && src.data == Join(t.parts, delimiter) + c.rest
              && Split(delimiter, src.data) == Cut(t.parts, c.rest)
              && inclusiveSeenHeader == (old(inclusiveSeenHeader) || (inclusive && c.parts != []))
    {
      ghost var c := Split(delimiter, src.data);
      ghost var todo := c;
      while true
        invariant Valid(src.data)
        invariant todo == Split(delimiter, src.data) && todo.rest == c.rest
        invariant Take(delimiter, inclusive, inclusiveSeenHeader, todo.parts)
                    == Take(delimiter, inclusive, old(inclusiveSeenHeader), c.parts)
        invariant (inclusiveSeenHeader || (inclusive && todo.parts != []))
                    == (old(inclusiveSeenHeader) || (inclusive && c.parts != []))
        invariant inclusiveTerminated == old(inclusiveTerminated)
        decreases |src.data|, |src.data| - searchFrom
      {
        var attempt := Probe(src);
        match attempt {
          case Found(part) =>
            todo := Split(delimiter, src.data);
            TakeFront(delimiter, inclusive, inclusiveSeenHeader, part, todo.parts);
            if inclusive && !inclusiveSeenHeader {
              inclusiveSeenHeader := true;
              continue;
            }
            SplitIsSplit(delimiter, src.data);
            var d := MakeDecoded(part);
            return Some(d);
          case Exhausted =>
            return None;
          case Advanced =>
            continue;
        }
      }
    }

    /** At end of stream; in inclusive mode what is left becomes the last message, once. */
    method DecodeEof(buf: BytesMut) returns (r: Option<seq<byte>>)
      requires Valid(buf.data)
      modifies this, buf
      ensures Valid(buf.data)
      ensures var c := Split(delimiter, old(buf.data));
              if !inclusive then
                && r == (if c.parts == [] then None else Some(c.parts[0]))
                && buf.data == (if c.parts == [] then c.rest else Join(c.parts[1..], delimiter) + c.rest)
              else if old(buf.data) == [] then
                && r == (if old(inclusiveSeenHeader && !inclusiveTerminated) then Some(delimiter) else None)
                && buf.data == []
                && inclusiveTerminated == old(inclusiveSeenHeader || inclusiveTerminated)
                && inclusiveSeenHeader == old(inclusiveSeenHeader)
              else
                var skip := if old(inclusiveSeenHeader) then 0 else 1;
                && inclusiveSeenHeader == (old(inclusiveSeenHeader) || c.parts != [])
                && if |c.parts| > skip then
                     && r == Some(delimiter + c.parts[skip])
                     && buf.data == Join(c.parts[skip + 1..], delimiter) + c.rest
                     && inclusiveTerminated == old(inclusiveTerminated)
                   else
                     r == Some(delimiter + c.rest) && buf.data == [] && inclusiveTerminated
    {
      if !inclusive {
        r := Decode(buf);
        return;
      }
      if buf.data == [] {
        if inclusiveSeenHeader && !inclusiveTerminated {
          inclusiveTerminated := true;
          var d := MakeDecoded([]);
          assert d == delimiter;
          return Some(d);
        }
        return None;
      }
      r := Decode(buf);
      if r.Some? {
        return;
      }
      inclusiveTerminated := true;
      searchFrom := 0;
      var left := buf.SplitTo(|buf.data|);
      assert left == Split(delimiter, old(buf.data)).rest;
      var d := MakeDecoded(left);
      return Some(d);
    }
  }

  lemma ShownExtend(d: seq<byte>, inclusive: bool, a: seq<seq<byte>>, b: seq<seq<byte>>)
    ensures Shown(d, inclusive, false, a + b)
            == Shown(d, inclusive, false, a) + Shown(d, inclusive, inclusive && a != [], b)
  {
    if a == [] {
      assert a + b == b;
    } else if inclusive {
      assert (a + b)[1..] == a[1..] + b;
      PrependAppend(d, a[1..], b);
    }
  }

  lemma ShownIsTaken(d: seq<byte>, inclusive: bool, seen: bool, parts: seq<seq<byte>>)
    ensures var t := Take(d, inclusive, seen, parts);
            Shown(d, inclusive, seen, parts) ==
            match t.out case None => [] case Some(x) => [x] + Shown(d, inclusive, seen || inclusive, t.parts)
  {
    hide PrependAll;
    var skip := if inclusive && !seen then 1 else 0;
    if |parts| > skip {
      var first, more := parts[skip], parts[skip + 1..];
      assert parts[skip..] == [first] + more;
      assert parts[0..] == parts;
      PrependAppend(d, [first], more);
      PrependOne(d, first);
    } else if inclusive {
      PrependNone(d, if seen || parts == [] then parts else parts[1..]);
    }
  }

  lemma PrependNone(d: seq<byte>, xs: seq<seq<byte>>)
    requires xs == []
    ensures PrependAll(d, xs) == []
  {
  }

  lemma PrependOne(d: seq<byte>, x: seq<byte>)
    ensures PrependAll(d, [x]) == [d + x]
  {
  }

  /** Calls `Decode` until it asks for more input. */
  method Drain(codec: AllDelimiterCodec, src: BytesMut) returns (out: seq<seq<byte>>)
    requires codec.Valid(src.data)
    modifies codec, src
    ensures codec.Valid(src.data)
    ensures var c := Split(codec.delimiter, old(src.data));
            && out == Shown(codec.delimiter, codec.inclusive, old(codec.inclusiveSeenHeader), c.parts)
            && src.data == c.rest
            && codec.inclusiveSeenHeader == (old(codec.inclusiveSeenHeader) || (codec.inclusive && c.parts != []))
            && codec.inclusiveTerminated == old(codec.inclusiveTerminated)
  {
    ghost var d, incl, todo := codec.delimiter, codec.inclusive, Split(codec.delimiter, src.data);
    out := [];
    while true
      invariant codec.Valid(src.data)
      invariant todo == Split(d, src.data) && todo.rest == Split(d, old(src.data)).rest
      invariant out + Shown(d, incl, codec.inclusiveSeenHeader, todo.parts)
                == Shown(d, incl, old(codec.inclusiveSeenHeader), Split(d, old(src.data)).parts)
      invariant (codec.inclusiveSeenHeader || (incl && todo.parts != []))
                == (old(codec.inclusiveSeenHeader) || (incl && Split(d, old(src.data)).parts != []))
      invariant codec.inclusiveTerminated == old(codec.inclusiveTerminated)
      decreases |todo.parts|
    {
      ShownIsTaken(d, incl, codec.inclusiveSeenHeader, todo.parts);
      var r := codec.Decode(src);
      if r.None? {
        return;
      }
      todo := Split(d, src.data);
      ConcatAssociates(out, [r.value], Shown(d, incl, codec.inclusiveSeenHeader, todo.parts));
      out := out + [r.value];
    }
  }

  /** Calls `DecodeEof` until the stream is over, once no delimiter is left in the buffer. */
  method DrainEof(codec: AllDelimiterCodec, src: BytesMut) returns (out: seq<seq<byte>>)
    requires codec.Valid(src.data) && Split(codec.delimiter, src.data).parts == []
    modifies codec, src
    ensures out == if codec.inclusive
                      && (old(src.data) != [] || old(codec.inclusiveSeenHeader && !codec.inclusiveTerminated))
                   then [codec.delimiter + old(src.data)] else []
    ensures src.data == if codec.inclusive then [] else old(src.data)
  {
    out := [];
    while true
      invariant codec.Valid(src.data)
      invariant out == [] ==> src.data == old(src.data)
      invariant out == [] ==> codec.inclusiveSeenHeader == old(codec.inclusiveSeenHeader)
      invariant out == [] ==> codec.inclusiveTerminated == old(codec.inclusiveTerminated)
      invariant out != [] ==> codec.inclusive && codec.inclusiveTerminated && src.data == []
      invariant out != [] ==> out == [codec.delimiter + old(src.data)]
                              && (old(src.data) != [] || old(codec.inclusiveSeenHeader && !codec.inclusiveTerminated))
      decreases |src.data|, if codec.inclusiveTerminated then 0 else 1
    {
      var r := codec.DecodeEof(src);
      if r.None? {
        return;
      }
      assert out == [];
      out := out + [r.value];
      assert codec.delimiter + [] == codec.delimiter;
    }
  }

  lemma SplitOfSomething(d: seq<byte>, s: seq<byte>)
    requires |d| > 0
    ensures s != [] <==> Split(d, s).parts != [] || Split(d, s).rest != []
  {
  }

  lemma NothingDecoded(d: seq<byte>, inclusive: bool)
    requires |d| > 0
    ensures Flatten<byte>([]) == [] && Split(d, []) == Cut([], []) && Shown(d, inclusive, false, []) == []
  {
  }

  /** A framed reader over a byte source that delivers `chunks` and then ends. */
  method DecodeStream(delimiter: seq<byte>, inclusive: bool, chunks: seq<seq<byte>>)
    returns (out: seq<seq<byte>>, left: seq<byte>)
    requires |delimiter| > 0
    ensures out == Decoded(delimiter, inclusive, Flatten(chunks))
    ensures left == if inclusive then [] else Split(delimiter, Flatten(chunks)).rest
  {
    hide Split, Shown, Dead, Flatten;
    var codec := new AllDelimiterCodec(delimiter, inclusive);
    var src := new BytesMut();
    out := [];
    ghost var s: seq<byte> := [];
    NothingDecoded(delimiter, inclusive);
    for i := 0 to |chunks|
      invariant codec.Valid(src.data)
      invariant s == Flatten(chunks[..i])
      invariant out == Shown(delimiter, inclusive, false, Split(delimiter, s).parts)
      invariant src.data == Split(delimiter, s).rest
      invariant codec.inclusiveSeenHeader == (inclusive && Split(delimiter, s).parts != [])
      invariant !codec.inclusiveTerminated
    {
      forall k: nat | k < codec.searchFrom
        ensures Dead(delimiter, src.data + chunks[i], k)
      {
        DeadForever(delimiter, src.data, chunks[i], k);
      }
      src.Put(chunks[i]);
      var more := Drain(codec, src);
      SplitExtend(delimiter, s, chunks[i]);
      ShownExtend(delimiter, inclusive, Split(delimiter, s).parts,
                  Split(delimiter, Split(delimiter, s).rest + chunks[i]).parts);
      out := out + more;
      assert chunks[..i + 1] == chunks[..i] + [chunks[i]];
      FlattenAppend(chunks[..i], [chunks[i]]);
      FlattenOne(chunks[i]);
      s := s + chunks[i];
    }
    assert chunks[..|chunks|] == chunks;
    RestIsWhole(delimiter, s);
    SplitOfSomething(delimiter, s);
    var last := DrainEof(codec, src);
    out := out + last;
    left := src.data;
  }

  /** The encoder side: everything `items` put on the wire, or the first item it refuses. */
  method EncodeStream(delimiter: seq<byte>, inclusive: bool, items: seq<seq<byte>>)
    returns (r: Result<seq<byte>, Error>)
    requires |delimiter| > 0
    ensures r.Err? <==> inclusive && exists i :: 0 <= i < |items| && !(delimiter <= items[i])
    ensures r.Ok? ==> r.value == if inclusive then Flatten(items) else Join(items, delimiter)
  {
    var codec := new AllDelimiterCodec(delimiter, inclusive);
    var dst := new BytesMut();
    for i := 0 to |items|
      invariant inclusive ==> forall k :: 0 <= k < i ==> delimiter <= items[k]
      invariant dst.data == if inclusive then Flatten(items[..i]) else Join(items[..i], delimiter)
    {
      var sent := codec.Encode(items[i], dst);
      if sent.Err? {
        return Err(sent.error);
      }
      assert items[..i + 1] == items[..i] + [items[i]];
      FlattenAppend(items[..i], [items[i]]);
      FlattenOne(items[i]);
      JoinAppend(items[..i], [items[i]], delimiter);
      JoinOne(items[i], delimiter);
    }
    assert items[..|items|] == items;
    return Ok(dst.data);
  }

  /** Exclusive mode gives back every message exactly when each one can be terminated by the delimiter. */
  lemma ExclusiveRoundTrip(d: seq<byte>, ms: seq<seq<byte>>)
    requires |d| > 0
    ensures Decoded(d, false, Join(ms, d)) == ms <==> forall i :: 0 <= i < |ms| ==> Terminable(d, ms[i])
  {
    var s := Join(ms, d);
    SplitIsSplit(d, s);
    if forall i :: 0 <= i < |ms| ==> Terminable(d, ms[i]) {
      assert s == Join(ms, d) + [];
      SplitIsUnique(d, s, Cut(ms, []));
    }
  }

  /** The stream a list of delimiter-led messages makes. */
  lemma {:induction false} InclusiveStream(d: seq<byte>, ms: seq<seq<byte>>)
    requires ms != []
    ensures Flatten(PrependAll(d, ms)) == Join([[]] + ms[..|ms| - 1], d) + ms[|ms| - 1]
  {
    var all := PrependAll(d, ms);
    var n := |ms| - 1;
    if n == 0 {
      assert all == [d + ms[0]] && [[]] + ms[..0] == [[]];
      FlattenOne(d + ms[0]);
      JoinOne([], d);
    } else {
      assert all == PrependAll(d, ms[..n]) + [d + ms[n]];
      FlattenAppend(PrependAll(d, ms[..n]), [d + ms[n]]);
      FlattenOne(d + ms[n]);
      InclusiveStream(d, ms[..n]);
      assert [[]] + ms[..n] == ([[]] + ms[..n][..n - 1]) + [ms[n - 1]];
      JoinAppend([[]] + ms[..n][..n - 1], [ms[n - 1]], d);
      JoinOne(ms[n - 1], d);
    }
  }

  /** The parts a stream of delimiter-led messages is meant to have. */
  function Intended(ms: seq<seq<byte>>): (r: Cut)
    requires ms != []
  {
    Cut([[]] + ms[..|ms| - 1], ms[|ms| - 1])
  }

  /**
   * Inclusive mode gives back every message exactly when each but the last can be terminated, and the last holds no
   * delimiter.
   */
  lemma InclusiveRoundTrip(d: seq<byte>, ms: seq<seq<byte>>)
    requires |d| > 0 && ms != []
    ensures Decoded(d, true, Flatten(PrependAll(d, ms))) == PrependAll(d, ms) <==>
            (forall i :: 0 <= i < |ms| - 1 ==> Terminable(d, ms[i])) && Absent(d, ms[|ms| - 1])
  {
    var s, n := Flatten(PrependAll(d, ms)), |ms| - 1;
    InclusiveStream(d, ms);
    if (forall i :: 0 <= i < n ==> Terminable(d, ms[i])) && Absent(d, ms[n]) {
      assert OccursAt(d, [] + d, 0);
      assert IsSplit(d, s, Intended(ms));
      SplitIsUnique(d, s, Intended(ms));
      OutputFromParts(d, ms);
    }
    if Decoded(d, true, s) == PrependAll(d, ms) {
      SplitIsSplit(d, s);
      PartsFromOutput(d, Split(d, s), ms);
      forall i | 0 <= i < n
        ensures Terminable(d, ms[i])
      {
        assert ms[i] == ms[..n][i] == Split(d, s).parts[i + 1];
      }
    }
  }

  lemma OutputFromParts(d: seq<byte>, ms: seq<seq<byte>>)
    requires ms != []
    ensures Shown(d, true, false, Intended(ms).parts) + [d + Intended(ms).rest] == PrependAll(d, ms)
  {
    assert Intended(ms).parts[1..] == ms[..|ms| - 1];
  }

  /** Outputs determine the split they came from. */
  lemma PartsFromOutput(d: seq<byte>, c: Cut, ms: seq<seq<byte>>)
    requires ms != []
    requires Shown(d, true, false, c.parts) + [d + c.rest] == PrependAll(d, ms)
    ensures c.rest == ms[|ms| - 1]
    ensures c.parts == [] ==> |ms| == 1
    ensures c.parts != [] ==> c.parts[1..] == ms[..|ms| - 1]
  {
    var out, n := PrependAll(d, ms), |ms| - 1;
    assert out[n] == d + c.rest && out[n][|d|..] == c.rest;
    assert (d + ms[n])[|d|..] == ms[n];
    if c.parts != [] {
      forall i | 0 <= i < n
        ensures c.parts[1..][i] == ms[i]
      {
        assert out[i] == d + c.parts[1..][i] == d + ms[i];
        assert out[i][|d|..] == ms[i];
      }
    }
  }

  /** From the first delimiter on nothing is lost, and every output starts with the delimiter. */
  lemma InclusiveConservation(d: seq<byte>, s: seq<byte>)
    requires |d| > 0 && !Absent(d, s)
    ensures FirstFrom(d, s, 0).Some?
    ensures Flatten(Decoded(d, true, s)) == s[FirstFrom(d, s, 0).value..]
    ensures |Decoded(d, true, s)| == |Split(d, s).parts|
    ensures forall i :: 0 <= i < |Decoded(d, true, s)| ==> d <= Decoded(d, true, s)[i]
    ensures forall i :: 0 <= i < |Decoded(d, true, s)| ==>
              var body := Decoded(d, true, s)[i][|d|..];
              if i < |Decoded(d, true, s)| - 1 then Terminable(d, body) else Absent(d, body)
  {
    var c, i := Split(d, s), FirstFrom(d, s, 0).value;
    SplitIsSplit(d, s);
    var ms := c.parts[1..] + [c.rest];
    assert s != [] && c.parts[0] == s[..i];
    assert Decoded(d, true, s) == PrependAll(d, ms);
    InclusiveStream(d, ms);
    assert ms[..|ms| - 1] == c.parts[1..];
    AfterPreamble(d, c.parts, c.rest);
    forall k | 0 <= k < |ms|
      ensures PrependAll(d, ms)[k][|d|..] == ms[k]
    {
      assert (d + ms[k])[|d|..] == ms[k];
    }
    assert forall k :: 0 <= k < |ms| - 1 ==> ms[k] == c.parts[k + 1];
  }

  /** Without a delimiter the whole stream is one message, with a delimiter in front; an empty stream is none. */
  lemma InclusiveWithoutDelimiter(d: seq<byte>, s: seq<byte>)
    requires |d| > 0 && Absent(d, s)
    ensures Decoded(d, true, s) == if s == [] then [] else [d + s]
  {
    SplitIsSplit(d, s);
    assert s == Join([], d) + s;
    SplitIsUnique(d, s, Cut([], s));
  }

  /** In exclusive mode the outputs, each with its delimiter, and the tail make up the stream; none is missed. */
  lemma ExclusiveConservation(d: seq<byte>, s: seq<byte>)
    requires |d| > 0
    ensures Join(Decoded(d, false, s), d) + Split(d, s).rest == s
    ensures forall i :: 0 <= i < |Decoded(d, false, s)| ==> Terminable(d, Decoded(d, false, s)[i])
    ensures Absent(d, Split(d, s).rest)
  {
    SplitIsSplit(d, s);
    assert Decoded(d, false, s) == Split(d, s).parts;
  }

  lemma AfterPreamble(d: seq<byte>, parts: seq<seq<byte>>, rest: seq<byte>)
    requires parts != []
    ensures (Join(parts, d) + rest)[|parts[0]|..] == Join([[]] + parts[1..], d) + rest
  {
    var j := d + Join(parts[1..], d);
    assert ([[]] + parts[1..])[1..] == parts[1..];
    assert Join([[]] + parts[1..], d) == [] + d + Join(parts[1..], d) == j;
    assert Join(parts, d) + rest == parts[0] + (j + rest);
  }

  /**
   * The type's own documentation: inclusive mode discards what precedes the first delimiter, so the outputs make up
   * the stream from there. That holds exactly for streams that are empty or hold a delimiter.
   */
  lemma InclusiveDiscardsPreamble(d: seq<byte>, s: seq<byte>)
    requires |d| > 0
    ensures Flatten(Decoded(d, true, s)) == (if FirstFrom(d, s, 0).Some? then s[FirstFrom(d, s, 0).value..] else [])
            <==> s == [] || !Absent(d, s)
  {
    if s != [] && Absent(d, s) {
      FlattenOne(d + s);
      assert Decoded(d, true, s) == [d + s];
    } else if s != [] {
      InclusiveConservation(d, s);
    }
  }

  /** A stream with no delimiter in it comes out anyway, with a delimiter that was never sent. */
  lemma PreambleLeaks()
    ensures Decoded([0, 1], true, [7]) == [[0, 1, 7]]
  {
    var d: seq<byte>, s: seq<byte> := [0, 1], [7];
    assert forall j: nat :: !OccursAt(d, s, j);
    assert Split(d, s) == Cut([], s);
    assert Decoded(d, true, s) == [] + [d + s];
    assert d + s == [0, 1, 7];
  }

  /** "Holds no delimiter" does not make a message safe to send: this one does not come back. */
  lemma OverlapLosesMessage()
    ensures Absent([12, 12], [12])
    ensures Decoded([12, 12], false, Join([[12]], [12, 12])) != [[12]]
  {
    var d: seq<byte>, m: seq<byte> := [12, 12], [12];
    assert d[..1] == d[1..] == m;
    BorderDefeatsTermination(d, 1);
    ExclusiveRoundTrip(d, [m]);
  }
}
