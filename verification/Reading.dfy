/** Reading back what a writer lays down item by item.

    A writer has a bit string for every item, and says what the item makes of the state
    so far and whether it is the last one.  When at any place and in any state only one
    outcome can stand written, reading is a function: the outcome of the whole, found by
    taking one item at a time. */
module Reading {
  import opened Options
  import opened Huffman

  /** `means` is None for an item that cannot follow the state. */
  datatype Writer<!X, !S> = Writer(bits: (nat, X) -> seq<bool>, means: (X, S) -> Option<(bool, S)>)

  /** Where an item leaves the reader: whether it was the last, the state, the place. */
  datatype Outcome<S> = Outcome(last: bool, state: S, at: nat)

  predicate Item<X, S(==)>(w: Writer<X, S>, s: seq<bool>, p: nat, state: S, x: X, o: Outcome<S>)
  {
    && StandsAt(s, p, w.bits(p, x)) && o.at == p + |w.bits(p, x)|
    && w.means(x, state) == Some((o.last, o.state))
  }

  /** Any two items that stand at one place, in one state, have one outcome. */
  ghost predicate OneOutcome<X(!new), S(!new)>(w: Writer<X, S>, s: seq<bool>)
  {
    forall p: nat, state, x, y, o, q :: Item(w, s, p, state, x, o) && Item(w, s, p, state, y, q) ==> o == q
  }

  /** The bits of items one after the other. */
  function Encoded<X, S>(w: Writer<X, S>, p: nat, xs: seq<X>): (b: seq<bool>)
    decreases |xs|
  {
    if xs == [] then [] else w.bits(p, xs[0]) + Encoded(w, p + |w.bits(p, xs[0])|, xs[1..])
  }

  /** What is written depends on the bits of items alone. */
  lemma {:induction false} SameEncoding<X(!new), S>(w: Writer<X, S>, v: Writer<X, S>, p: nat, xs: seq<X>)
    requires forall q: nat, x {:trigger w.bits(q, x)} :: w.bits(q, x) == v.bits(q, x)
    ensures Encoded(w, p, xs) == Encoded(v, p, xs)
    decreases |xs|
  {
    if xs != [] {
      SameEncoding(w, v, p + |w.bits(p, xs[0])|, xs[1..]);
    }
  }

  /** The state after all items; None unless exactly the last of them is a last one. */
  function Meaning<X, S>(w: Writer<X, S>, xs: seq<X>, state: S): Option<S>
  {
    if xs == [] then None
    else
      match w.means(xs[0], state)
      case None => None
      case Some((last, next)) =>
        if last then (if |xs| == 1 then Some(next) else None) else Meaning(w, xs[1..], next)
  }

  /** The items' bits stand in s from p to q, and they mean o. */
  predicate Written<X, S(==)>(w: Writer<X, S>, s: seq<bool>, p: nat, state: S, xs: seq<X>, o: S, q: nat)
  {
    && StandsAt(s, p, Encoded(w, p, xs)) && q == p + |Encoded(w, p, xs)|
    && Meaning(w, xs, state) == Some(o)
  }

  /** The first item stands at p, and what follows it is written after it. */
  predicate Starts<X, S(==)>(w: Writer<X, S>, s: seq<bool>, p: nat, state: S, xs: seq<X>, o: S, q: nat, first: Outcome<S>)
  {
    && xs != [] && Item(w, s, p, state, xs[0], first)
    && if first.last then |xs| == 1 && first.state == o && first.at == q
       else Written(w, s, first.at, first.state, xs[1..], o, q)
  }

  lemma WrittenStep<X, S>(w: Writer<X, S>, s: seq<bool>, p: nat, state: S, xs: seq<X>, o: S, q: nat)
    returns (first: Outcome<S>)
    requires Written(w, s, p, state, xs, o, q)
    ensures Starts(w, s, p, state, xs, o, q, first)
  {
    var at := p + |w.bits(p, xs[0])|;
    StandsApart(s, p, w.bits(p, xs[0]), Encoded(w, at, xs[1..]));
    var m := w.means(xs[0], state).value;
    first := Outcome(m.0, m.1, at);
    if first.last { assert Encoded(w, at, xs[1..]) == []; }
  }

  lemma WrittenOne<X, S>(w: Writer<X, S>, s: seq<bool>, p: nat, state: S, x: X, o: S, q: nat)
    requires Item(w, s, p, state, x, Outcome(true, o, q))
    ensures Written(w, s, p, state, [x], o, q)
  {
    assert Encoded(w, q, []) == [];
    assert [x][1..] == [];
    assert Encoded(w, p, [x]) == w.bits(p, x);
  }

  lemma WrittenMore<X, S>(w: Writer<X, S>, s: seq<bool>, p: nat, state: S, x: X, first: Outcome<S>, xs: seq<X>, o: S, q: nat)
    requires Item(w, s, p, state, x, first) && !first.last && Written(w, s, first.at, first.state, xs, o, q)
    ensures Written(w, s, p, state, [x] + xs, o, q)
  {
    var all := [x] + xs;
    assert all[1..] == xs && all[0] == x;
    StandsApart(s, p, w.bits(p, x), Encoded(w, first.at, xs));
  }

  /** What stands at a place has one meaning and one end. */
  lemma {:induction false} MeansOneThing<X(!new), S(!new)>(w: Writer<X, S>, s: seq<bool>, p: nat, state: S,
        xs: seq<X>, o: S, q: nat, ys: seq<X>, u: S, v: nat)
    requires OneOutcome(w, s) && Written(w, s, p, state, xs, o, q) && Written(w, s, p, state, ys, u, v)
    ensures o == u && q == v
    decreases |xs|
  {
    var first := WrittenStep(w, s, p, state, xs, o, q);
    var other := WrittenStep(w, s, p, state, ys, u, v);
    assert first == other;
    if !first.last {
      MeansOneThing(w, s, first.at, first.state, xs[1..], o, q, ys[1..], u, v);
    }
  }

  /** The meaning and end of what is written at p; None when nothing is. */
  ghost function Read<X(!new), S(!new)>(w: Writer<X, S>, s: seq<bool>, p: nat, state: S): (r: Option<(S, nat)>)
    ensures r.Some? <==> exists xs, o, q: nat :: Written(w, s, p, state, xs, o, q)
    ensures r.Some? ==> exists xs :: Written(w, s, p, state, xs, r.value.0, r.value.1)
  {
    if found: (seq<X>, S, nat) :| Written(w, s, p, state, found.0, found.1, found.2) then Some((found.1, found.2))
    else NothingWritten(w, s, p, state); None
  }

  lemma NothingWritten<X(!new), S(!new)>(w: Writer<X, S>, s: seq<bool>, p: nat, state: S)
    requires forall found: (seq<X>, S, nat) :: !Written(w, s, p, state, found.0, found.1, found.2)
    ensures !exists xs, o, q: nat :: Written(w, s, p, state, xs, o, q)
  {
    forall xs, o, q: nat ensures !Written(w, s, p, state, xs, o, q) {
      var found := (xs, o, q);
      assert !Written(w, s, p, state, found.0, found.1, found.2);
    }
  }

  lemma ReadIs<X(!new), S(!new)>(w: Writer<X, S>, s: seq<bool>, p: nat, state: S, xs: seq<X>, o: S, q: nat)
    requires OneOutcome(w, s) && Written(w, s, p, state, xs, o, q)
    ensures Read(w, s, p, state) == Some((o, q))
  {
    var r := Read(w, s, p, state).value;
    var ys :| Written(w, s, p, state, ys, r.0, r.1);
    MeansOneThing(w, s, p, state, xs, o, q, ys, r.0, r.1);
  }

  /** What is read was written. */
  lemma ReadSome<X(!new), S(!new)>(w: Writer<X, S>, s: seq<bool>, p: nat, state: S, o: S, q: nat) returns (xs: seq<X>)
    requires Read(w, s, p, state) == Some((o, q))
    ensures Written(w, s, p, state, xs, o, q)
  {
    xs :| Written(w, s, p, state, xs, o, q);
  }

  /** A last item ends the reading. */
  lemma ReadLast<X(!new), S(!new)>(w: Writer<X, S>, s: seq<bool>, p: nat, state: S, x: X, o: Outcome<S>)
    requires OneOutcome(w, s) && Item(w, s, p, state, x, o) && o.last
    ensures Read(w, s, p, state) == Some((o.state, o.at))
  {
    WrittenOne(w, s, p, state, x, o.state, o.at);
    ReadIs(w, s, p, state, [x], o.state, o.at);
  }

  /** After any other item, reading goes on from where it left off. */
  lemma ReadMore<X(!new), S(!new)>(w: Writer<X, S>, s: seq<bool>, p: nat, state: S, x: X, o: Outcome<S>)
    requires OneOutcome(w, s) && Item(w, s, p, state, x, o) && !o.last
    ensures Read(w, s, p, state) == Read(w, s, o.at, o.state)
  {
    if Read(w, s, o.at, o.state).Some? {
      var r := Read(w, s, o.at, o.state).value;
      var xs :| Written(w, s, o.at, o.state, xs, r.0, r.1);
      WrittenMore(w, s, p, state, x, o, xs, r.0, r.1);
      ReadIs(w, s, p, state, [x] + xs, r.0, r.1);
    } else if Read(w, s, p, state).Some? {
      var r := Read(w, s, p, state).value;
      var xs :| Written(w, s, p, state, xs, r.0, r.1);
      var first := WrittenStep(w, s, p, state, xs, r.0, r.1);
      assert false;
    }
  }

  /** Where no item stands, nothing is written. */
  lemma ReadNone<X(!new), S(!new)>(w: Writer<X, S>, s: seq<bool>, p: nat, state: S)
    requires forall x, o :: !Item(w, s, p, state, x, o)
    ensures Read(w, s, p, state) == None
  {
    if Read(w, s, p, state).Some? {
      var r := Read(w, s, p, state).value;
      var xs :| Written(w, s, p, state, xs, r.0, r.1);
      var first := WrittenStep(w, s, p, state, xs, r.0, r.1);
      assert false;
    }
  }

  // ---- one turn of a reading loop -----------------------------------------------------------

  /** Some item stands at p, with this outcome. */
  ghost predicate Stands<X(!new), S>(w: Writer<X, S>, s: seq<bool>, p: nat, state: S, o: Outcome<S>)
  {
    exists x :: Item(w, s, p, state, x, o)
  }

  ghost predicate Nothing<X(!new), S(!new)>(w: Writer<X, S>, s: seq<bool>, p: nat, state: S)
  {
    forall x, o :: !Item(w, s, p, state, x, o)
  }

  /** A turn at p left the reader at q: with the outcome of an item that stands at p, or
      with nothing when none does. */
  ghost predicate Turned<X(!new), S(!new)>(w: Writer<X, S>, s: seq<bool>, p: nat, state: S, r: Option<(bool, S)>, q: nat)
  {
    match r
    case None => Nothing(w, s, p, state)
    case Some((last, next)) => Stands(w, s, p, state, Outcome(last, next, q))
  }

  /** What is left to read after a turn. */
  lemma ReadTurn<X(!new), S(!new)>(w: Writer<X, S>, s: seq<bool>, p: nat, state: S, r: Option<(bool, S)>, q: nat)
    requires OneOutcome(w, s) && Turned(w, s, p, state, r, q)
    ensures Read(w, s, p, state) ==
      match r
      case None => None
      case Some((last, next)) => if last then Some((next, q)) else Read(w, s, q, next)
  {
    match r
    case None => ReadNone(w, s, p, state);
    case Some((last, next)) =>
      var o := Outcome(last, next, q);
      var x :| Item(w, s, p, state, x, o);
      if last { ReadLast(w, s, p, state, x, o); } else { ReadMore(w, s, p, state, x, o); }
  }
}
