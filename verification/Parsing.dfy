/** Parsers over byte strings, and the loop that reads a counted list of elements.
    The laws of a list are proved once, from the laws of its element. */
module Parsing {
  import opened Bytes

  datatype Parsed<+T> = Fail | Parsed(value: T, rest: seq<Byte>) {
    predicate IsFailure() { Fail? }
    function PropagateFailure<U>(): Parsed<U>
      requires Fail?
    {
      Fail
    }
    function Extract(): (T, seq<Byte>)
      requires Parsed?
    {
      (value, rest)
    }
  }

  function Take(s: seq<Byte>, n: nat): Parsed<seq<Byte>>
  {
    if |s| < n then Fail else Parsed(s[..n], s[n..])
  }

  function ReadInt(t: IntType, s: seq<Byte>): (p: Parsed<int>)
    ensures p.Parsed? ==> t.InRange(p.value)
  {
    var (bytes, rest) :- Take(s, t.Width());
    Parsed(IntOf(t, bytes), rest)
  }

  /** `for (i = 0; i < n && ok; i++) read(element)`: a count of zero or less reads nothing. */
  function ReadList<T>(read: seq<Byte> -> Parsed<T>, s: seq<Byte>, n: int): (p: Parsed<seq<T>>)
    ensures p.Parsed? ==> |p.value| == if n <= 0 then 0 else n
    decreases n
  {
    if n <= 0 then Parsed([], s) else
      var (v, s1) :- read(s);
      var (vs, s2) :- ReadList(read, s1, n - 1);
      Parsed([v] + vs, s2)
  }

  function WriteList<T>(write: T -> seq<Byte>, vs: seq<T>): seq<Byte>
  {
    if vs == [] then [] else write(vs[0]) + WriteList(write, vs[1..])
  }

  // ---- laws an element may have ----

  /** Reading what was written, whatever follows it, gives it back and stops right behind it. */
  ghost predicate Inverts<T(!new)>(read: seq<Byte> -> Parsed<T>, write: T -> seq<Byte>)
  {
    forall v, t :: |write(v)| < TWO63 ==> read(write(v) + t) == Parsed(v, t)
  }

  /** More input behind a successful read changes nothing but the rest. */
  ghost predicate Extends<T(!new)>(read: seq<Byte> -> Parsed<T>)
  {
    forall s, t :: read(s).Parsed? ==> read(s + t) == Parsed(read(s).value, read(s).rest + t)
  }

  /** What was consumed is the encoding of what was read. */
  ghost predicate Canonical<T(!new)>(read: seq<Byte> -> Parsed<T>, write: T -> seq<Byte>)
  {
    forall s :: read(s).Parsed? ==> s == write(read(s).value) + read(s).rest
  }

  /** Every successful read consumes at least `m` bytes. */
  ghost predicate Consumes<T(!new)>(read: seq<Byte> -> Parsed<T>, m: nat)
  {
    forall s :: read(s).Parsed? ==> |read(s).rest| + m <= |s|
  }

  // ---- the same laws of a list ----

  lemma {:induction false} ListInverts<T(!new)>(read: seq<Byte> -> Parsed<T>, write: T -> seq<Byte>, vs: seq<T>, t: seq<Byte>)
    requires Inverts(read, write)
    requires |WriteList(write, vs)| < TWO63
    ensures ReadList(read, WriteList(write, vs) + t, |vs|) == Parsed(vs, t)
  {
    if vs != [] {
      var tail := WriteList(write, vs[1..]);
      assert WriteList(write, vs) + t == write(vs[0]) + (tail + t);
      ListInverts(read, write, vs[1..], t);
      assert vs == [vs[0]] + vs[1..];
    }
  }

  lemma {:induction false} ListExtends<T(!new)>(read: seq<Byte> -> Parsed<T>, s: seq<Byte>, n: int, t: seq<Byte>)
    requires Extends(read)
    requires ReadList(read, s, n).Parsed?
    ensures ReadList(read, s + t, n) == Parsed(ReadList(read, s, n).value, ReadList(read, s, n).rest + t)
    decreases n
  {
    if n > 0 {
      assert read(s + t) == Parsed(read(s).value, read(s).rest + t);
      ListExtends(read, read(s).rest, n - 1, t);
    }
  }

  lemma {:induction false} ListCanonical<T(!new)>(read: seq<Byte> -> Parsed<T>, write: T -> seq<Byte>, s: seq<Byte>, n: int)
    requires Canonical(read, write)
    requires ReadList(read, s, n).Parsed?
    ensures s == WriteList(write, ReadList(read, s, n).value) + ReadList(read, s, n).rest
    decreases n
  {
    if n > 0 {
      var v, s1 := read(s).value, read(s).rest;
      ListCanonical(read, write, s1, n - 1);
      var vs, r := ReadList(read, s1, n - 1).value, ReadList(read, s1, n - 1).rest;
      assert ([v] + vs)[1..] == vs;
      assert write(v) + (WriteList(write, vs) + r) == (write(v) + WriteList(write, vs)) + r;
    }
  }

  lemma {:induction false} ListConsumes<T(!new)>(read: seq<Byte> -> Parsed<T>, m: nat, s: seq<Byte>, n: int)
    requires Consumes(read, m)
    requires ReadList(read, s, n).Parsed?
    ensures |ReadList(read, s, n).rest| + (if n <= 0 then 0 else n * m) <= |s|
    decreases n
  {
    if n > 0 {
      ListConsumes(read, m, read(s).rest, n - 1);
      assert n * m == (n - 1) * m + m;
    }
  }

  lemma {:induction false} ListLength<T>(write: T -> seq<Byte>, m: nat, vs: seq<T>)
    requires forall v <- vs :: |write(v)| >= m
    ensures |WriteList(write, vs)| >= |vs| * m
  {
    if vs != [] {
      ListLength(write, m, vs[1..]);
      assert |vs| * m == |vs[1..]| * m + m;
    }
  }

  /** How often the body of the reading loop runs: the failing element costs one more turn. */
  function Turns<T>(read: seq<Byte> -> Parsed<T>, s: seq<Byte>, n: int): nat
    decreases n
  {
    if n <= 0 then 0
    else match read(s)
      case Fail => 1
      case Parsed(_, rest) => 1 + Turns(read, rest, n - 1)
  }

  /** Whatever count the stream claims, the loop is bounded by the bytes that are there. */
  lemma {:induction false} TurnsBounded<T(!new)>(read: seq<Byte> -> Parsed<T>, m: nat, s: seq<Byte>, n: int)
    requires m > 0 && Consumes(read, m)
    ensures Turns(read, s, n) * m <= |s| + m
    decreases n
  {
    if n > 0 && read(s).Parsed? {
      TurnsBounded(read, m, read(s).rest, n - 1);
      assert Turns(read, s, n) * m == Turns(read, read(s).rest, n - 1) * m + m;
    }
  }

  // ---- lists grow at the end while a loop fills them ----

  lemma {:induction false} ReadListSnoc<T>(read: seq<Byte> -> Parsed<T>, s: seq<Byte>, n: nat)
    requires ReadList(read, s, n).Parsed?
    ensures var sofar := ReadList(read, s, n);
            ReadList(read, s, n + 1) ==
              if read(sofar.rest).Fail? then Fail
              else Parsed(sofar.value + [read(sofar.rest).value], read(sofar.rest).rest)
    decreases n
  {
    if n == 0 {
      assert ReadList(read, s, 0) == Parsed([], s);
      assert read(s).Parsed? ==> ReadList(read, read(s).rest, 0) == Parsed([], read(s).rest);
      assert read(s).Parsed? ==> [read(s).value] + [] == [] + [read(s).value];
    } else {
      var s1 := read(s).rest;
      ReadListSnoc(read, s1, n - 1);
      var sofar := ReadList(read, s1, n - 1);
      if read(sofar.rest).Parsed? {
        assert [read(s).value] + (sofar.value + [read(sofar.rest).value])
            == ([read(s).value] + sofar.value) + [read(sofar.rest).value];
      }
    }
  }

  lemma {:induction false} ReadListFails<T>(read: seq<Byte> -> Parsed<T>, s: seq<Byte>, n: int, m: int)
    requires ReadList(read, s, n).Fail? && n <= m
    ensures ReadList(read, s, m).Fail?
    decreases n
  {
    if n > 0 && read(s).Parsed? {
      ReadListFails(read, read(s).rest, n - 1, m - 1);
    }
  }

  lemma {:induction false} WriteListSnoc<T>(write: T -> seq<Byte>, vs: seq<T>, v: T)
    ensures WriteList(write, vs + [v]) == WriteList(write, vs) + write(v)
  {
    if vs == [] {
      assert [v][1..] == [];
    } else {
      WriteListSnoc(write, vs[1..], v);
      assert (vs + [v])[1..] == vs[1..] + [v];
    }
  }
}
