/**
 * The table of descriptors and its list of free selectors
 * (src/win16/global-allocator.ts): the one given back last is the first given
 * again, and with none given back the first unmarked from 1 is found.
 */
module SelectorAllocator {
  const SELECTORS := 8192
  const NO_SELECTOR := -1

  /** A descriptor's index, or -1 for none. */
  type Index = i: int | NO_SELECTOR <= i < SELECTORS witness 0

  /**
   * `_usedMap` as the set of indices marked (a descriptor for -1, asked for
   * when there was none, marks a property of its own), and `#freed`, the one
   * given back last at the end.
   */
  datatype Table = Table(used: set<Index>, freed: seq<Index>)

  /** What `find` looks for: the first index from `start` not marked, else -1. */
  function FirstFree(used: set<Index>, start: nat): (index: Index)
    ensures index == NO_SELECTOR || (start <= index < SELECTORS && index !in used)
    ensures forall k :: start <= k < SELECTORS && (index == NO_SELECTOR || k < index) ==> k in used
    decreases SELECTORS - start
  {
    if start >= SELECTORS then NO_SELECTOR
    else if start !in used then start
    else FirstFree(used, start + 1)
  }

  /** The list of those given back, with those marked since taken off its top. */
  function Popped(used: set<Index>, freed: seq<Index>): (rest: seq<Index>)
    ensures |rest| <= |freed| && rest == freed[..|rest|]
    ensures rest != [] ==> rest[|rest| - 1] !in used
    ensures forall k :: |rest| <= k < |freed| ==> freed[k] in used
  {
    if freed == [] then []
    else if freed[|freed| - 1] !in used then freed
    else Popped(used, freed[..|freed| - 1])
  }

  /** The index `take` answers, not yet marked. */
  function TakenIndex(t: Table): (index: Index) {
    var rest := Popped(t.used, t.freed);
    if rest != [] then rest[|rest| - 1] else FirstFree(t.used, 1)
  }

  /** The table after `take`. */
  function AfterTake(t: Table): (r: Table) {
    var rest := Popped(t.used, t.freed);
    t.(freed := if rest != [] then rest[..|rest| - 1] else [])
  }

  function Mark(t: Table, index: Index): (r: Table) {
    t.(used := t.used + {index})
  }

  /** How a descriptor is asked for: `reserve` marks nothing where there was none, `map` marks -1. */
  datatype Asking = Reserving | Mapping

  function AfterAsking(t: Table, asking: Asking): (r: Table) {
    var index := TakenIndex(t);
    if asking.Reserving? && index < 0 then AfterTake(t) else Mark(AfterTake(t), index)
  }

  /** The answers to a row of requests, in order, and the table they leave. */
  datatype Acquisition = Acquisition(indices: seq<Index>, table: Table)

  /** One request more. */
  function Asked(a: Acquisition, asking: Asking): (r: Acquisition) {
    Acquisition(a.indices + [TakenIndex(a.table)], AfterAsking(a.table, asking))
  }

  /** So many requests more, each mapped. */
  function AskedTimes(a: Acquisition, count: nat): (r: Acquisition)
    ensures |r.indices| == |a.indices| + count
    ensures a.indices <= r.indices
  {
    if count == 0 then a else Asked(AskedTimes(a, count - 1), Mapping)
  }

  /** Given back one after another: unmarked, each on top of the one before. */
  function Given(t: Table, indices: seq<Index>): (r: Table) {
    Table(t.used - (set i | i in indices), t.freed + indices)
  }

  function Released(t: Table, index: Index): (r: Table) {
    t.(used := t.used - {index})
  }

  class GlobalAllocator {
    var used: set<Index>
    var freed: seq<Index>

    /** As `reset` leaves it: the system's own descriptors marked, none given back. */
    constructor (system: set<Index>)
      ensures State() == Table(system, [])
    {
      used := system;
      freed := [];
    }

    ghost function State(): Table
      reads this
    {
      Table(used, freed)
    }

    method Find(start: nat) returns (index: Index)
      ensures index == FirstFree(used, start)
    {
      var i: nat := start;
      while i < SELECTORS
        invariant FirstFree(used, i) == FirstFree(used, start)
      {
        if i !in used {
          return i;
        }
        i := i + 1;
      }
      return NO_SELECTOR;
    }

    method Take() returns (index: Index)
      modifies this
      ensures index == old(TakenIndex(State()))
      ensures State() == old(AfterTake(State()))
    {
      while |freed| > 0
        invariant used == old(used)
        invariant Popped(used, freed) == old(Popped(used, freed))
        decreases |freed|
      {
        index := freed[|freed| - 1];
        freed := freed[..|freed| - 1];
        if index !in used {
          return;
        }
      }
      index := Find(1);
    }

    method Map(index: Index)
      modifies this
      ensures State() == Mark(old(State()), index)
    {
      used := used + {index};
    }

    method TakeAndMap() returns (index: Index)
      modifies this
      ensures index == old(TakenIndex(State()))
      ensures State() == old(AfterAsking(State(), Mapping))
    {
      index := Take();
      Map(index);
    }

    method Reserve() returns (index: Index)
      modifies this
      ensures index == old(TakenIndex(State()))
      ensures State() == old(AfterAsking(State(), Reserving))
    {
      index := Take();
      if index < 0 {
        return NO_SELECTOR;
      }
      Map(index);
    }

    method Release(index: Index)
      modifies this
      ensures State() == Released(old(State()), index)
    {
      used := used - {index};
    }

    method Give(index: Index)
      modifies this
      ensures State() == Given(old(State()), [index])
    {
      Release(index);
      freed := freed + [index];
    }
  }

  /** Entries that are selectors differ from one another. */
  ghost predicate Distinct(xs: seq<Index>) {
    forall i, j :: 0 <= i < j < |xs| && xs[i] >= 0 ==> xs[i] != xs[j]
  }

  /** A table as every run leaves it: the null selector is the system's, and none is on the list twice. */
  ghost predicate Sound(t: Table) {
    0 in t.used && 0 !in t.freed && Distinct(t.freed)
  }

  /** One request: what it answers is new, and only that is marked. */
  lemma AskingIsFresh(t: Table, asking: Asking)
    requires Sound(t)
    ensures Sound(AfterAsking(t, asking))
    ensures TakenIndex(t) == NO_SELECTOR || (TakenIndex(t) >= 1 && TakenIndex(t) !in t.used)
    ensures forall k: Index :: k >= 0 ==>
      (k in AfterAsking(t, asking).used <==> k in t.used || k == TakenIndex(t))
    ensures AfterAsking(t, asking).freed <= t.freed
    ensures TakenIndex(t) >= 0 ==> TakenIndex(t) !in AfterAsking(t, asking).freed
  {
  }

  /** A row of answers to requests begun at a table: new, different selectors, and all that is marked. */
  ghost predicate FreshSince(t: Table, a: Acquisition) {
    && Sound(a.table) && Distinct(a.indices) && a.table.freed <= t.freed
    && (forall k: Index :: k >= 0 ==> (k in a.table.used <==> k in t.used || k in a.indices))
    && (forall k: Index :: k >= 0 && k in a.indices ==> k >= 1 && k !in t.used && k !in a.table.freed)
  }

  lemma AskedIsFresh(t: Table, a: Acquisition, asking: Asking)
    requires FreshSince(t, a)
    ensures FreshSince(t, Asked(a, asking))
  {
    AskingIsFresh(a.table, asking);
  }

  lemma {:induction false} AskedTimesIsFresh(t: Table, a: Acquisition, count: nat)
    requires FreshSince(t, a)
    ensures FreshSince(t, AskedTimes(a, count))
  {
    if count > 0 {
      AskedTimesIsFresh(t, a, count - 1);
      AskedIsFresh(t, AskedTimes(a, count - 1), Mapping);
    }
  }

  /** Lists given back one after the other are their concatenation given back. */
  lemma GivenTogether(t: Table, a: seq<Index>, b: seq<Index>)
    ensures Given(Given(t, a), b) == Given(t, a + b)
  {
  }

  /** A selector on top of the list and not marked is the one answered. */
  lemma TopIsTaken(t: Table, asking: Asking)
    requires t.freed != [] && t.freed[|t.freed| - 1] !in t.used && t.freed[|t.freed| - 1] >= 0
    ensures TakenIndex(t) == t.freed[|t.freed| - 1]
    ensures AfterAsking(t, asking) == Table(t.used + {TakenIndex(t)}, t.freed[..|t.freed| - 1])
  {
  }

  /** The last of those given back are free selectors, each but once. */
  ghost predicate FreeOnTop(t: Table, count: nat) {
    && count <= |t.freed|
    && (forall k :: |t.freed| - count <= k < |t.freed| ==> t.freed[k] >= 0 && t.freed[k] !in t.used)
    && (forall k, l :: |t.freed| - count <= k < l < |t.freed| ==> t.freed[k] != t.freed[l])
  }

  /**
   * Answers taken so far from the top of a list of so many free selectors:
   * those given back last, the last first, the rest free still.
   */
  ghost predicate LastFirst(t: Table, count: nat, a: Acquisition) {
    && |a.indices| <= count <= |t.freed|
    && (forall k :: 0 <= k < |a.indices| ==> a.indices[k] == t.freed[|t.freed| - 1 - k])
    && a.table.freed == t.freed[..|t.freed| - |a.indices|]
    && FreeOnTop(a.table, count - |a.indices|)
  }

  lemma AskedIsLastFirst(t: Table, count: nat, a: Acquisition, asking: Asking)
    requires LastFirst(t, count, a) && |a.indices| < count
    ensures LastFirst(t, count, Asked(a, asking))
  {
    TopIsTaken(a.table, asking);
  }

  lemma {:induction false} AskedTimesIsLastFirst(t: Table, count: nat, a: Acquisition, times: nat)
    requires LastFirst(t, count, a) && |a.indices| + times <= count
    ensures LastFirst(t, count, AskedTimes(a, times))
  {
    if times > 0 {
      AskedTimesIsLastFirst(t, count, a, times - 1);
      AskedIsLastFirst(t, count, AskedTimes(a, times - 1), Mapping);
    }
  }

  /**
   * `take` answers no selector exactly when a -1 is the first of those given
   * back not marked, or none of those given back is unmarked and every
   * descriptor is marked.
   */
  lemma TakeFailsExactly(t: Table)
    requires Sound(t)
    ensures TakenIndex(t) == NO_SELECTOR <==>
            var rest := Popped(t.used, t.freed);
            if rest != [] then rest[|rest| - 1] == NO_SELECTOR
            else forall k: Index :: k >= 1 ==> k in t.used
  {
  }

  /**
   * A load that ran out gives -1 back as its program ends, and the next
   * request is answered -1 however many descriptors are free.
   */
  lemma GivenNoneIsAnsweredNone(t: Table)
    ensures TakenIndex(Given(t, [NO_SELECTOR])) == NO_SELECTOR
  {
  }

  /** There are 8,192 descriptors, the first never found, and -1 is found exactly where each of the others is marked. */
  lemma NoneFoundExactly(used: set<Index>)
    ensures FirstFree(used, 1) == -1 <==> forall i: Index :: 1 <= i < 8192 ==> i in used
  {
    assert FirstFree(used, 1) != -1 ==> 1 <= FirstFree(used, 1) < 8192;
  }

  /** What a request marks: its answer, but that one that only reserves marks nothing where there was none. */
  lemma AskingMarks(t: Table, asking: Asking)
    ensures AfterAsking(t, asking).used
         == if asking == Reserving && TakenIndex(t) == -1 then t.used else t.used + {TakenIndex(t)}
  {
    hide FirstFree, Popped;
  }
}
