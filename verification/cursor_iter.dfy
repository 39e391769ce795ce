/** The generic adapter of src/collection.rs that turns a native collection's
    begin / is-end / next / get cursor protocol into a Rust `Iterator`. The four
    operations belong to code that is not part of this model, so they are parameters:
    a `Protocol` fixes them for one collection. */
module CursorIter {
  import opened Common

  /** The native operations, already applied to one collection: `begin(collection)`,
      `is_end(collection, cursor)`, `next(collection, cursor)` and `get(cursor)`. */
  datatype Protocol<T> = Protocol(begin: Ptr, isEnd: Ptr -> bool, next: Ptr -> Ptr, get: Ptr -> T)

  /** `Iter`: the current cursor; a null cursor means iteration has not started. */
  datatype Iter = Iter(cursor: Ptr)

  /** Which native operation, if any, a step used to move the cursor. */
  datatype Advance = NoAdvance | ByBegin | ByNext

  datatype Step<T> = Step(iter: Iter, item: Option<T>, advance: Advance)

  /** `Iter::new`: iteration starts from the null cursor. */
  function New(): (it: Iter)
    ensures it.cursor == Null
  {
    Iter(Null)
  }

  /** `Iterator::next` for `Iter`, as written: `is_end` is asked about the cursor before
      it moves; a null cursor is moved with `begin`, any other with `next`; and the item
      is `get` of the moved cursor, which `is_end` has not seen. */
  function Next<T>(p: Protocol<T>, it: Iter): (s: Step<T>)
    ensures p.isEnd(it.cursor) <==> s.item.None?
    ensures p.isEnd(it.cursor) ==> s.iter == it && s.advance == NoAdvance
    ensures !p.isEnd(it.cursor) && it.cursor == Null ==> s.advance == ByBegin && s.iter.cursor == p.begin
    ensures !p.isEnd(it.cursor) && it.cursor != Null ==> s.advance == ByNext && s.iter.cursor == p.next(it.cursor)
    ensures s.item.Some? ==> s.item.value == p.get(s.iter.cursor)
  {
    if p.isEnd(it.cursor) then Step(it, None, NoAdvance)
    else
      var c := if it.cursor == Null then p.begin else p.next(it.cursor);
      Step(Iter(c), Some(p.get(c)), if it.cursor == Null then ByBegin else ByNext)
  }

  /** What a `for` loop over the iterator sees: items up to the first `None`, and the
      native operations used, in order. `fuel` bounds the number of steps. */
  datatype Run<T> = Run(items: seq<T>, advances: seq<Advance>, last: Iter)

  function Drain<T>(p: Protocol<T>, it: Iter, fuel: nat): (r: Run<T>)
    decreases fuel
  {
    if fuel == 0 then Run([], [], it)
    else
      var s := Next(p, it);
      if s.item.None? then Run([], [], it)
      else
        var rest := Drain(p, s.iter, fuel - 1);
        Run([s.item.value] + rest.items, [s.advance] + rest.advances, rest.last)
  }

  function CountBegins(advances: seq<Advance>): nat {
    if |advances| == 0 then 0
    else (if advances[0] == ByBegin then 1 else 0) + CountBegins(advances[1..])
  }

  /** Once the cursor is non-null it stays non-null while `next` never returns null, so
      no later step goes back to `begin`. */
  lemma {:induction false} NoBeginAfterStart<T>(p: Protocol<T>, it: Iter, fuel: nat)
    requires it.cursor != Null
    requires forall c :: c != Null ==> p.next(c) != Null
    ensures CountBegins(Drain(p, it, fuel).advances) == 0
    decreases fuel
  {
    if fuel > 0 && !p.isEnd(it.cursor) {
      NoBeginAfterStart(p, Next(p, it).iter, fuel - 1);
    }
  }

  /** `begin` is called at most once per iterator, provided neither `begin` nor `next`
      hands back a null cursor. */
  lemma BeginAtMostOnce<T>(p: Protocol<T>, fuel: nat)
    requires p.begin != Null
    requires forall c :: c != Null ==> p.next(c) != Null
    ensures CountBegins(Drain(p, New(), fuel).advances) <= 1
  {
    if fuel > 0 && !p.isEnd(Null) {
      NoBeginAfterStart(p, Next(p, New()).iter, fuel - 1);
    }
  }

  /** When the protocol treats the null cursor as the end (as a collection whose
      `is_end` begins with a null check does), the adapter yields nothing at all,
      whatever the collection holds, and never calls `begin`. */
  lemma NullEndYieldsNothing<T>(p: Protocol<T>, fuel: nat)
    requires p.isEnd(Null)
    ensures Drain(p, New(), fuel).items == []
    ensures Drain(p, New(), fuel).advances == []
  {
  }

  // ---------------------------------------------------------------------------
  // A reference collection: a sequence walked by index

  /** Reading through a cursor: an element, or a read at the past-the-end position. */
  datatype Read<T> = Item(value: T) | PastEnd

  /** The usual cursor protocol over `xs`: `begin` is index 0, `next` adds one, `is_end`
      holds at index |xs|, and `get` reads the element. `nullIsEnd` says what `is_end`
      answers for the null cursor, which the protocol leaves open. */
  function ListProtocol<T>(xs: seq<T>, nullIsEnd: bool): Protocol<Read<T>> {
    Protocol(
      At(0),
      (c: Ptr) => if c == Null then nullIsEnd else c.addr >= |xs|,
      (c: Ptr) => if c == Null then Null else At(c.addr + 1),
      (c: Ptr) => if c.At? && c.addr < |xs| then Item(xs[c.addr]) else PastEnd)
  }

  function Items<T>(xs: seq<T>): (r: seq<Read<T>>)
    ensures |r| == |xs|
    ensures forall i :: 0 <= i < |xs| ==> r[i] == Item(xs[i])
  {
    if |xs| == 0 then [] else [Item(xs[0])] + Items(xs[1..])
  }

  lemma {:induction false} DrainListFrom<T>(xs: seq<T>, nullIsEnd: bool, i: nat, fuel: nat)
    requires i < |xs|
    requires fuel >= |xs| - i + 1
    ensures Drain(ListProtocol(xs, nullIsEnd), Iter(At(i)), fuel).items == Items(xs[i + 1..]) + [PastEnd]
    decreases |xs| - i
  {
    var p := ListProtocol(xs, nullIsEnd);
    assert !p.isEnd(At(i)) && p.next(At(i)) == At(i + 1);
    var s := Next(p, Iter(At(i)));
    assert s.iter == Iter(At(i + 1));
    if i + 1 < |xs| {
      assert p.get(At(i + 1)) == Item(xs[i + 1]);
      DrainListFrom(xs, nullIsEnd, i + 1, fuel - 1);
      assert Items(xs[i + 1..]) == [Item(xs[i + 1])] + Items(xs[i + 2..]);
    } else {
      assert p.get(At(i + 1)) == PastEnd;
      assert p.isEnd(At(i + 1));
      assert Drain(p, Iter(At(i + 1)), fuel - 1).items == [];
      assert xs[i + 1..] == [];
    }
  }

  /** The first step of the adapter over a sequence reads through `begin`. */
  lemma ListFirstStep<T>(xs: seq<T>, fuel: nat)
    ensures Drain(ListProtocol(xs, false), New(), fuel + 1).items
            == [ListProtocol(xs, false).get(At(0))] + Drain(ListProtocol(xs, false), Iter(At(0)), fuel).items
  {
    var p := ListProtocol(xs, false);
    assert !p.isEnd(Null) && p.begin == At(0);
    var s := Next(p, New());
    assert s.iter == Iter(At(0)) && s.item == Some(p.get(At(0)));
  }

  lemma AppendAssoc<T>(a: seq<T>, b: seq<T>, c: seq<T>)
    ensures a + (b + c) == (a + b) + c
  {
  }

  lemma ItemsCons<T>(xs: seq<T>)
    requires |xs| > 0
    ensures Items(xs) == [Item(xs[0])] + Items(xs[1..])
  {
  }

  lemma ListYieldsOneExtraNonEmpty<T>(xs: seq<T>)
    requires |xs| > 0
    ensures Drain(ListProtocol(xs, false), New(), |xs| + 2).items == Items(xs) + [PastEnd]
  {
    var p := ListProtocol(xs, false);
    var rest := Drain(p, Iter(At(0)), |xs| + 1).items;
    ListFirstStep(xs, |xs| + 1);
    assert Drain(p, New(), |xs| + 2).items == [p.get(At(0))] + rest;
    assert p.get(At(0)) == Item(xs[0]);
    DrainListFrom(xs, false, 0, |xs| + 1);
    ItemsCons(xs);
    AppendAssoc([Item(xs[0])], Items(xs[1..]), [PastEnd]);
  }

  /** As written, the adapter is off by one against the usual protocol: over a
      sequence it yields every element and then one read at the past-the-end cursor
      (a lone past-the-end read for an empty sequence). */
  lemma {:induction false} ListYieldsOneExtra<T>(xs: seq<T>)
    ensures Drain(ListProtocol(xs, false), New(), |xs| + 2).items == Items(xs) + [PastEnd]
  {
    if |xs| > 0 {
      ListYieldsOneExtraNonEmpty(xs);
    } else {
      var p := ListProtocol(xs, false);
      ListFirstStep(xs, 1);
      assert p.get(At(0)) == PastEnd;
      assert p.isEnd(At(0));
    }
  }

  // ---------------------------------------------------------------------------
  // The adapter as intended

  /** Advance first, then ask `is_end` about the cursor that would be read, so `get`
      only ever sees a cursor that is not at the end; an iterator already at the end
      stays there without calling `next` again. */
  function NextChecked<T>(p: Protocol<T>, it: Iter): (s: Step<T>)
    ensures s.item.Some? ==> !p.isEnd(s.iter.cursor) && s.item.value == p.get(s.iter.cursor)
    ensures s.item.None? ==> p.isEnd(s.iter.cursor) || (it.cursor != Null && p.isEnd(it.cursor))
    ensures it.cursor != Null && p.isEnd(it.cursor) ==> s.iter == it && s.item.None?
  {
    if it.cursor != Null && p.isEnd(it.cursor) then Step(it, None, NoAdvance)
    else
      var c := if it.cursor == Null then p.begin else p.next(it.cursor);
      var adv := if it.cursor == Null then ByBegin else ByNext;
      if p.isEnd(c) then Step(Iter(c), None, adv)
      else Step(Iter(c), Some(p.get(c)), adv)
  }

  function DrainChecked<T>(p: Protocol<T>, it: Iter, fuel: nat): (r: seq<T>)
    decreases fuel
  {
    if fuel == 0 then []
    else
      var s := NextChecked(p, it);
      if s.item.None? then [] else [s.item.value] + DrainChecked(p, s.iter, fuel - 1)
  }

  lemma {:induction false} DrainCheckedFrom<T>(xs: seq<T>, nullIsEnd: bool, i: nat, fuel: nat)
    requires i < |xs|
    requires fuel >= |xs| - i
    ensures DrainChecked(ListProtocol(xs, nullIsEnd), Iter(At(i)), fuel) == Items(xs[i + 1..])
    decreases |xs| - i
  {
    var p := ListProtocol(xs, nullIsEnd);
    if i + 1 < |xs| {
      DrainCheckedFrom(xs, nullIsEnd, i + 1, fuel - 1);
      assert Items(xs[i + 1..]) == [Item(xs[i + 1])] + Items(xs[i + 2..]);
    } else {
      assert xs[i + 1..] == [];
    }
  }

  /** The intended adapter yields exactly the sequence's elements, in order, whichever
      answer `is_end` gives for the null cursor. */
  lemma {:induction false} ListYieldsExactly<T>(xs: seq<T>, nullIsEnd: bool)
    ensures DrainChecked(ListProtocol(xs, nullIsEnd), New(), |xs| + 1) == Items(xs)
  {
    if |xs| > 0 {
      DrainCheckedFrom(xs, nullIsEnd, 0, |xs|);
      assert Items(xs) == [Item(xs[0])] + Items(xs[1..]);
    }
  }
}
