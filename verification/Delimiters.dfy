/** What splitting a byte stream at a delimiter means, independently of any codec. */
module Delimiters {
  import opened Bytes

  predicate OccursAt(d: seq<byte>, s: seq<byte>, i: nat) {
    i + |d| <= |s| && s[i..i + |d|] == d
  }

  /** `i` is the leftmost occurrence of `d` in `s`. */
  ghost predicate IsFirst(d: seq<byte>, s: seq<byte>, i: nat) {
    OccursAt(d, s, i) && forall j: nat :: j < i ==> !OccursAt(d, s, j)
  }

  ghost predicate Absent(d: seq<byte>, s: seq<byte>) {
    forall j: nat :: !OccursAt(d, s, j)
  }

  /** The leftmost occurrence of `d` in `s` at or after `i`. */
  function FirstFrom(d: seq<byte>, s: seq<byte>, i: nat): (r: Option<nat>)
    ensures r.Some? ==> i <= r.value && OccursAt(d, s, r.value)
    ensures r.Some? ==> forall j: nat :: i <= j < r.value ==> !OccursAt(d, s, j)
    ensures r.None? ==> forall j: nat :: i <= j ==> !OccursAt(d, s, j)
    decreases |s| - i
  {
    if OccursAt(d, s, i) then Some(i)
    else if i < |s| then FirstFrom(d, s, i + 1)
    else None
  }

  datatype Cut = Cut(parts: seq<seq<byte>>, rest: seq<byte>)

  /** Splits `s` at the leftmost, non-overlapping occurrences of `d`; `rest` holds no delimiter. */
  function Split(d: seq<byte>, s: seq<byte>): (r: Cut)
    requires |d| > 0
    decreases |s|
  {
    match FirstFrom(d, s, 0)
    case None => Cut([], s)
    case Some(i) =>
      var tail := Split(d, s[i + |d|..]);
      Cut([s[..i]] + tail.parts, tail.rest)
  }

  lemma SplitUnfolds(d: seq<byte>, s: seq<byte>, p: nat)
    requires |d| > 0 && FirstFrom(d, s, 0) == Some(p)
    ensures Split(d, s) == Cut([s[..p]] + Split(d, s[p + |d|..]).parts, Split(d, s[p + |d|..]).rest)
  {
    hide OccursAt, FirstFrom;
  }

  /** Each part followed by the delimiter. */
  function Join(parts: seq<seq<byte>>, d: seq<byte>): (r: seq<byte>) {
    if parts == [] then [] else parts[0] + d + Join(parts[1..], d)
  }

  /** A message may be terminated by `d` exactly when the terminator is the first occurrence. */
  ghost predicate Terminable(d: seq<byte>, m: seq<byte>) {
    IsFirst(d, m + d, |m|)
  }

  /** The whole meaning of a split, with no algorithm in it. */
  ghost predicate IsSplit(d: seq<byte>, s: seq<byte>, c: Cut) {
    && s == Join(c.parts, d) + c.rest
    && (forall i :: 0 <= i < |c.parts| ==> Terminable(d, c.parts[i]))
    && Absent(d, c.rest)
  }

  lemma {:induction false} JoinAppend(a: seq<seq<byte>>, b: seq<seq<byte>>, d: seq<byte>)
    ensures Join(a + b, d) == Join(a, d) + Join(b, d)
  {
    if a == [] {
      assert a + b == b;
    } else {
      assert (a + b)[1..] == a[1..] + b;
      JoinAppend(a[1..], b, d);
    }
  }

  lemma JoinOne(part: seq<byte>, d: seq<byte>)
    ensures Join([part], d) == part + d
  {
    assert Join([part], d) == part + d + Join([], d);
  }

  /** An occurrence that ends inside `a` does not depend on what follows `a`. */
  lemma OccursLocal(d: seq<byte>, a: seq<byte>, t: seq<byte>, i: nat)
    requires i + |d| <= |a|
    ensures OccursAt(d, a + t, i) == OccursAt(d, a, i)
  {
    assert (a + t)[i..i + |d|] == a[i..i + |d|];
  }

  lemma TerminableInContext(d: seq<byte>, m: seq<byte>, t: seq<byte>)
    ensures Terminable(d, m) <==> IsFirst(d, m + d + t, |m|)
  {
    forall j: nat | j <= |m|
      ensures OccursAt(d, m + d + t, j) == OccursAt(d, m + d, j)
    {
      OccursLocal(d, m + d, t, j);
    }
  }

  lemma FirstIsUnique(d: seq<byte>, s: seq<byte>, i: nat)
    requires IsFirst(d, s, i)
    ensures FirstFrom(d, s, 0) == Some(i)
  {
    var r := FirstFrom(d, s, 0);
    assert r.Some? by {
      assert OccursAt(d, s, i);
    }
  }

  lemma SplitAtFirst(d: seq<byte>, m: seq<byte>, t: seq<byte>)
    requires |d| > 0 && Terminable(d, m)
    ensures Split(d, m + d + t).parts == [m] + Split(d, t).parts
    ensures Split(d, m + d + t).rest == Split(d, t).rest
  {
    var s := m + d + t;
    TerminableInContext(d, m, t);
    FirstIsUnique(d, s, |m|);
    assert s[..|m|] == m && s[|m| + |d|..] == t;
  }

  lemma IsSplitCons(d: seq<byte>, m: seq<byte>, t: seq<byte>, c: Cut)
    requires Terminable(d, m) && IsSplit(d, t, c)
    ensures IsSplit(d, m + d + t, Cut([m] + c.parts, c.rest))
  {
    assert ([m] + c.parts)[1..] == c.parts;
    ConcatAssociates(m + d, Join(c.parts, d), c.rest);
  }

  /** `Split` computes a split ... */
  lemma {:induction false} SplitIsSplit(d: seq<byte>, s: seq<byte>)
    requires |d| > 0
    ensures IsSplit(d, s, Split(d, s))
    decreases |s|
  {
    hide Split, FirstFrom, Terminable, Join, Absent;
    SplitUnfoldsNone(d, s);
    match FirstFrom(d, s, 0) {
      case None =>
      case Some(i) =>
        var m, t := s[..i], s[i + |d|..];
        SplitUnfolds(d, s, i);
        FirstIsTerminable(d, s, i);
        SplitIsSplit(d, t);
        IsSplitCons(d, m, t, Split(d, t));
    }
  }

  lemma SplitUnfoldsNone(d: seq<byte>, s: seq<byte>)
    requires |d| > 0
    ensures FirstFrom(d, s, 0).None? ==> IsSplit(d, s, Split(d, s))
  {
    assert s == Join([], d) + s;
  }

  lemma FirstIsTerminable(d: seq<byte>, s: seq<byte>, i: nat)
    requires FirstFrom(d, s, 0) == Some(i)
    ensures s == s[..i] + d + s[i + |d|..] && Terminable(d, s[..i])
  {
    var m, t := s[..i], s[i + |d|..];
    assert s == m + s[i..i + |d|] + t;
    assert IsFirst(d, s, i);
    hide IsFirst, Terminable, OccursAt, FirstFrom;
    TerminableInContext(d, m, t);
  }

  lemma SplitOfRest(d: seq<byte>, s: seq<byte>, c: Cut)
    requires |d| > 0 && IsSplit(d, s, c) && c.parts == []
    ensures Split(d, s) == c
  {
    assert s == c.rest;
  }

  /** ... and there is only one. */
  lemma {:induction false} SplitIsUnique(d: seq<byte>, s: seq<byte>, c: Cut)
    requires |d| > 0 && IsSplit(d, s, c)
    ensures Split(d, s) == c
    decreases |c.parts|
  {
    if c.parts == [] {
      SplitOfRest(d, s, c);
    } else {
      hide Split, Terminable, Absent;
      var t := Join(c.parts[1..], d) + c.rest;
      assert s == c.parts[0] + d + t;
      SplitAtFirst(d, c.parts[0], t);
      SplitIsUnique(d, t, Cut(c.parts[1..], c.rest));
      assert c.parts == [c.parts[0]] + c.parts[1..];
    }
  }

  lemma SplitsCompose(d: seq<byte>, s: seq<byte>, t: seq<byte>, c: Cut, e: Cut)
    requires IsSplit(d, s, c) && IsSplit(d, c.rest + t, e)
    ensures IsSplit(d, s + t, Cut(c.parts + e.parts, e.rest))
  {
    JoinAppend(c.parts, e.parts, d);
    var j, k := Join(c.parts, d), Join(e.parts, d);
    assert s + t == j + (c.rest + t);
    assert j + (k + e.rest) == (j + k) + e.rest;
  }

  /** Bytes that arrive later extend the split of what came before; they never change it. */
  lemma {:induction false} SplitExtend(d: seq<byte>, s: seq<byte>, t: seq<byte>)
    requires |d| > 0
    ensures Split(d, s + t) ==
            Cut(Split(d, s).parts + Split(d, Split(d, s).rest + t).parts, Split(d, Split(d, s).rest + t).rest)
  {
    SplitIsSplit(d, s);
    SplitIsSplit(d, Split(d, s).rest + t);
    SplitsCompose(d, s, t, Split(d, s), Split(d, Split(d, s).rest + t));
    SplitIsUnique(d, s + t,
                  Cut(Split(d, s).parts + Split(d, Split(d, s).rest + t).parts, Split(d, Split(d, s).rest + t).rest));
  }

  lemma RestIsWhole(d: seq<byte>, s: seq<byte>)
    requires |d| > 0
    ensures Split(d, Split(d, s).rest) == Cut([], Split(d, s).rest)
  {
    SplitIsSplit(d, s);
  }

  /** `d` overlaps a shifted copy of itself: some proper prefix of it is also a suffix. */
  ghost predicate Bordered(d: seq<byte>) {
    exists b: nat :: 0 < b < |d| && IsBorder(d, b)
  }

  ghost predicate IsBorder(d: seq<byte>, b: nat)
    requires b <= |d|
  {
    d[..b] == d[|d| - b..]
  }

  /** A match that starts in a message and ends in its terminator shows a border. */
  lemma OverlapIsBorder(d: seq<byte>, m: seq<byte>, j: nat)
    requires j < |m| < j + |d| && OccursAt(d, m + d, j)
    ensures Bordered(d)
  {
    var s, b := m + d, j + |d| - |m|;
    assert s[j..j + |d|][|d| - b..] == s[|m|..|m| + b];
    assert s[|m|..|m| + b] == d[..b];
    assert IsBorder(d, b);
  }

  /** Without borders, a message that holds no delimiter can always be terminated by it. */
  lemma UnborderedTerminates(d: seq<byte>, m: seq<byte>)
    requires |d| > 0 && !Bordered(d) && Absent(d, m)
    ensures Terminable(d, m)
  {
    var s := m + d;
    assert s[|m|..|m| + |d|] == d;
    forall j: nat | j < |m|
      ensures !OccursAt(d, s, j)
    {
      if OccursAt(d, s, j) {
        if j + |d| <= |m| {
          OccursLocal(d, m, d, j);
        } else {
          OverlapIsBorder(d, m, j);
        }
      }
    }
  }

  /** With a border, the message that the border leaves over holds no delimiter and yet cannot be terminated. */
  lemma BorderDefeatsTermination(d: seq<byte>, b: nat)
    requires 0 < b < |d| && IsBorder(d, b)
    ensures Absent(d, d[..|d| - b]) && !Terminable(d, d[..|d| - b])
  {
    var m := d[..|d| - b];
    assert (m + d)[0..|d|] == m + d[..b] == m + d[|d| - b..] == d;
    assert OccursAt(d, m + d, 0);
  }

  /** "Contains no delimiter" is enough for every message exactly when the delimiter has no border. */
  lemma AbsentSuffices(d: seq<byte>)
    requires |d| > 0
    ensures (forall m :: Absent(d, m) ==> Terminable(d, m)) <==> !Bordered(d)
  {
    if Bordered(d) {
      var b: nat :| 0 < b < |d| && IsBorder(d, b);
      BorderDefeatsTermination(d, b);
    } else {
      forall m | Absent(d, m)
        ensures Terminable(d, m)
      {
        UnborderedTerminates(d, m);
      }
    }
  }
}
