/** The filtering iterator adaptor and its whitespace predicate (filter_iterator.hpp). */
module FilterIterators {

  /** isspace: the subtraction wraps around in 32 bits. */
  predicate IsSpace(ch: char) {
    ch == ' ' || (ch as int - '\t' as int) % 0x1_0000_0000 < 5
  }

  predicate IsNotSpace(ch: char) {
    !IsSpace(ch)
  }

  /** It is the set of white space of the C locale: tab, line feed, vertical tab, form feed, carriage return, space. */
  lemma IsSpaceExactly(ch: char)
    ensures IsSpace(ch) <==> ch as int in {9, 10, 11, 12, 13, 32}
  {
  }

  function Filter<T>(s: seq<T>, keep: T -> bool): seq<T> {
    if s == [] then [] else
      (if keep(s[0]) then [s[0]] else []) + Filter(s[1..], keep)
  }

  /** The positions before n, in order. */
  ghost function Positions(n: nat): seq<nat> {
    if n == 0 then [] else Positions(n - 1) + [n - 1]
  }

  /** The iterator at `base` of the range; `visited` is the history of the positions it has read. */
  class FilterIterator<T(0)> {
    const range: seq<T>
    const keep: T -> bool
    var base: nat
    var value: T
    ghost var visited: seq<nat>

    /** At an element to retain, which is cached, or at the end; every position up to it was read once, in order. */
    ghost predicate Valid()
      reads this
    {
      && base <= |range|
      && (base < |range| ==> keep(range[base]) && value == range[base])
      && visited == Positions(if base < |range| then base + 1 else |range|)
    }

    /** What dereferencing and incrementing up to the end will yield. */
    ghost function Remaining(): seq<T>
      requires Valid()
      reads this
    {
      Filter(range[base..], keep)
    }

    constructor (range: seq<T>, keep: T -> bool)
      ensures Valid() && this.range == range && this.keep == keep
      ensures Remaining() == Filter(range, keep)
    {
      this.range, this.keep, base, visited := range, keep, 0, [];
      new;
      ForwardToNextValue();
      assert range[0..] == range;
    }

    method ForwardToNextValue()
      requires base <= |range| && visited == Positions(base)
      modifies this
      ensures Valid() && Remaining() == Filter(range[old(base)..], keep)
      ensures base >= old(base)
    {
      while base != |range|
        invariant base <= |range| && visited == Positions(base)
        invariant Filter(range[base..], keep) == Filter(range[old(base)..], keep)
        invariant base >= old(base)
      {
        value := range[base];
        visited := visited + [base];
        if keep(value) {
          break;
        }
        assert range[base..][1..] == range[base + 1..];
        base := base + 1;
      }
    }

    predicate AtEnd()
      reads this
    {
      base == |range|
    }

    lemma NothingRemains()
      requires Valid() && AtEnd()
      ensures Remaining() == []
    {
    }

    /** The increment moves past the current element, which was the first of those remaining. */
    method Increment()
      requires Valid() && base < |range|
      modifies this
      ensures Valid() && old(Remaining()) == [old(value)] + Remaining()
      ensures base > old(base)
    {
      assert range[base..][1..] == range[base + 1..];
      base := base + 1;
      ForwardToNextValue();
    }
  }

  /** A full pass over the range yields exactly the elements to retain, in order, and reads each position once. */
  method Drain<T(0)>(range: seq<T>, keep: T -> bool) returns (out: seq<T>, ghost positions: seq<nat>)
    ensures out == Filter(range, keep)
    ensures positions == Positions(|range|)
  {
    var it := new FilterIterator<T>(range, keep);
    out := [];
    while !it.AtEnd()
      invariant it.Valid() && fresh(it) && it.range == range && it.keep == keep
      invariant out + it.Remaining() == Filter(range, keep)
      decreases |range| - it.base
    {
      out := out + [it.value];
      it.Increment();
    }
    positions := it.visited;
  }

  lemma {:induction false} FilterSound<T(!new)>(s: seq<T>, keep: T -> bool)
    ensures forall i :: 0 <= i < |Filter(s, keep)| ==> keep(Filter(s, keep)[i]) && Filter(s, keep)[i] in s
    ensures forall i :: 0 <= i < |s| && keep(s[i]) ==> s[i] in Filter(s, keep)
  {
    if s != [] {
      FilterSound(s[1..], keep);
    }
  }
}
