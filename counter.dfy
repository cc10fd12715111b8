/** A model of the counter application: a `Counter` holding one signed 8-bit
    value, and the `update` transition that applies an `Increment` or a
    `Decrement` message to it in place.

    Rust's `i8` is the newtype `Int8`: every assignment to a value of that
    type must be proved to stay in [-128, 127], which is exactly the check
    that a debug build performs on `+=` before it panics. An update that
    would overflow is therefore a precondition violation of `Update`; at
    the level of whole message sequences it is the `None` outcome of `Run`.
 */
module CounterApp {

  /** Rust's `i8`. */
  newtype Int8 = x: int | -128 <= x < 128

  const I8Min: int := -128
  const I8Max: int := 127

  predicate InI8Range(x: int) {
    I8Min <= x <= I8Max
  }

  datatype Option<T> = None | Some(value: T)

  /** The two messages the counter reacts to (a closed enum). */
  datatype Message = Increment | Decrement

  /** The message that undoes `m`. */
  function Opposite(m: Message): Message {
    match m
    case Increment => Decrement
    case Decrement => Increment
  }

  /** The amount `update` adds to the value for `m`: `+= 1` and `+= -1`. */
  function Delta(m: Message): int {
    match m
    case Increment => 1
    case Decrement => -1
  }

  /** Whether applying `m` at `v` overflows `i8` (the debug-build panic):
      incrementing at the top of the range or decrementing at its bottom. */
  function Overflows(v: Int8, m: Message): (b: bool)
    ensures b <==> !InI8Range(v as int + Delta(m))
  {
    (m == Increment && v as int == I8Max) || (m == Decrement && v as int == I8Min)
  }

  /** The value after `update` applies `m` to `v`, when that does not overflow. */
  function Step(v: Int8, m: Message): (r: Int8)
    requires !Overflows(v, m)
    ensures m == Increment ==> r as int == v as int + 1
    ensures m == Decrement ==> r as int == v as int - 1
    ensures r != v
  {
    match m
    case Increment => v + 1
    case Decrement => v + -1
  }

  /** Number of `Increment`s minus number of `Decrement`s in `ms`. */
  function Net(ms: seq<Message>): int {
    multiset(ms)[Increment] as int - multiset(ms)[Decrement] as int
  }

  lemma NetCons(m: Message, ms: seq<Message>)
    ensures Net([m] + ms) == Delta(m) + Net(ms)
  {
    assert multiset([m] + ms) == multiset{m} + multiset(ms);
  }

  /** The outcome of delivering the messages `ms`, in order, to a counter
      holding `v`: `Some` of the final value, or `None` when some update
      overflows (the panic, after which no further message is processed).
      A value that survives is the start value plus the net count. */
  function Run(v: Int8, ms: seq<Message>): (r: Option<Int8>)
    ensures r.Some? ==> r.value as int == v as int + Net(ms)
    decreases ms
  {
    if ms == [] then Some(v)
    else if Overflows(v, ms[0]) then None
    else
      var r := Run(Step(v, ms[0]), ms[1..]);
      assert ms == [ms[0]] + ms[1..];
      NetCons(ms[0], ms[1..]);
      r
  }

  /** Delivering `a` then `b` is delivering `a + b`: a panic in `a` stops
      everything, otherwise `b` starts from where `a` ended. */
  lemma {:induction false} RunAppend(v: Int8, a: seq<Message>, b: seq<Message>)
    ensures Run(v, a + b) == match Run(v, a)
                             case None => None
                             case Some(w) => Run(w, b)
    decreases a
  {
    if a == [] {
      assert a + b == b;
    } else {
      assert (a + b)[0] == a[0];
      assert (a + b)[1..] == a[1..] + b;
      if !Overflows(v, a[0]) {
        RunAppend(Step(v, a[0]), a[1..], b);
      }
    }
  }

  /** A sequence of messages is processed without a panic exactly when the
      running value, start plus net count of every prefix, stays in the
      `i8` range. */
  lemma {:induction false} RunSucceedsIff(v: Int8, ms: seq<Message>)
    ensures Run(v, ms).Some? <==>
            forall k :: 0 <= k <= |ms| ==> InI8Range(v as int + Net(ms[..k]))
    decreases ms
  {
    if ms == [] {
      assert ms[..0] == [];
    } else {
      var m, rest := ms[0], ms[1..];
      assert ms[..0] == [];
      forall k | 0 <= k <= |rest|
        ensures Net(ms[..k + 1]) == Delta(m) + Net(rest[..k])
      {
        assert ms[..k + 1] == [m] + rest[..k];
        NetCons(m, rest[..k]);
      }
      if Overflows(v, m) {
        assert !InI8Range(v as int + Net(ms[..1]));
      } else {
        var w := Step(v, m);
        assert w as int == v as int + Delta(m);
        RunSucceedsIff(w, rest);
        if Run(v, ms).Some? {
          forall k | 0 <= k <= |ms|
            ensures InI8Range(v as int + Net(ms[..k]))
          {
            if k > 0 {
              assert Net(ms[..(k - 1) + 1]) == Delta(m) + Net(rest[..k - 1]);
            }
          }
        } else {
          var j :| 0 <= j <= |rest| && !InI8Range(w as int + Net(rest[..j]));
          assert !InI8Range(v as int + Net(ms[..j + 1]));
        }
      }
    }
  }

  /** Starting from the default value 0, a sequence is processed without a
      panic exactly when the net count of every prefix fits in `i8`, and it
      then leaves the count of `Increment`s minus the count of `Decrement`s. */
  lemma FromDefault(ms: seq<Message>)
    ensures Run(0, ms).Some? <==>
            forall k :: 0 <= k <= |ms| ==> InI8Range(Net(ms[..k]))
    ensures Run(0, ms).Some? ==>
            Run(0, ms).value as int == multiset(ms)[Increment] as int - multiset(ms)[Decrement] as int
  {
    RunSucceedsIff(0, ms);
  }

  /** A message followed by its opposite restores the value, provided the
      first one does not overflow (the second then cannot). */
  lemma StepInverse(v: Int8, m: Message)
    requires !Overflows(v, m)
    ensures !Overflows(Step(v, m), Opposite(m))
    ensures Step(Step(v, m), Opposite(m)) == v
  {
  }

  /** Inserting a message and its opposite into a sequence, at a point where
      the message does not overflow or after the sequence has already
      panicked, changes neither whether it panics nor where it ends. */
  lemma {:induction false} RunCancel(v: Int8, a: seq<Message>, m: Message, b: seq<Message>)
    requires Run(v, a).None? || !Overflows(Run(v, a).value, m)
    ensures Run(v, a + [m, Opposite(m)] + b) == Run(v, a + b)
  {
    if Run(v, a).Some? {
      StepInverse(Run(v, a).value, m);
    }
    assert a + [m, Opposite(m)] + b == a + ([m, Opposite(m)] + b);
    RunAppend(v, a, [m, Opposite(m)] + b);
    RunAppend(v, a, b);
    assert ([m, Opposite(m)] + b)[0] == m;
    assert ([m, Opposite(m)] + b)[1..] == [Opposite(m)] + b;
    assert ([Opposite(m)] + b)[0] == Opposite(m);
    assert ([Opposite(m)] + b)[1..] == b;
  }

  /** The counter of the application (`#[derive(Default)] struct Counter`). */
  class Counter {
    var value: Int8

    /** `Counter::default()`: the `i8` field starts at 0. */
    constructor ()
      ensures value == 0
    {
      value := 0;
    }

    /** `Counter::update`: applies `m` to `value` in place. Both variants are
        handled; an overflowing update (a panic) is excluded by `requires`. */
    method Update(m: Message)
      requires !Overflows(value, m)
      modifies this
      ensures value == Step(old(value), m)
      ensures Run(old(value), [m]) == Some(value)
    {
      match m {
        case Increment => value := value + 1;
        case Decrement => value := value + -1;
      }
    }
  }

  /** Any counter given a non-overflowing message and then its opposite
      holds its original value again. */
  method UpdateUndo(c: Counter, m: Message)
    requires !Overflows(c.value, m)
    modifies c
    ensures c.value == old(c.value)
  {
    StepInverse(c.value, m);
    c.Update(m);
    c.Update(Opposite(m));
  }

  /** Delivering the messages `ms` one at a time to `c`, as the iced runtime
      does, leaves `c` holding what `Run` predicts, provided no update in the
      sequence overflows. */
  method UpdateAll(c: Counter, ms: seq<Message>)
    requires Run(c.value, ms).Some?
    modifies c
    ensures Run(old(c.value), ms) == Some(c.value)
  {
    ghost var v0 := c.value;
    for i := 0 to |ms|
      invariant Run(v0, ms[..i]) == Some(c.value)
    {
      assert ms[..i + 1] == ms[..i] + [ms[i]];
      assert ms == ms[..i] + ms[i..];
      RunAppend(v0, ms[..i], ms[i..]);
      assert ms[i..][0] == ms[i];
      RunAppend(v0, ms[..i], [ms[i]]);
      c.Update(ms[i]);
    }
    assert ms[..|ms|] == ms;
  }
}
