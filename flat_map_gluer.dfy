/** A lazy flat-map over a sequence: the outputs of a map function applied to each input in turn,
    then, once the input is drained, to an optional sentinel. The map function may carry state
    of its own (a Java `Function` object with mutable fields); that state is threaded through
    explicitly as `S`, so a stateless function is the case `S = ()`. */
module Gluing {
  import opened JavaTypes

  /** The left fold the gluer computes lazily: `f` applied to each element of `xs` in order,
      starting in state `s`; returns the final state and the concatenated outputs. */
  function Run<S, I, O>(f: (S, I) -> (S, seq<O>), s: S, xs: seq<I>): (S, seq<O>)
    decreases |xs|
  {
    if xs == [] then (s, [])
    else
      var first := f(s, xs[0]);
      var rest := Run(f, first.0, xs[1..]);
      (rest.0, first.1 + rest.1)
  }

  /** Running over `xs + ys` is running over `xs`, then over `ys` from where `xs` left off. */
  lemma {:induction false} RunAppend<S, I, O>(f: (S, I) -> (S, seq<O>), s: S, xs: seq<I>, ys: seq<I>)
    ensures Run(f, s, xs + ys).0 == Run(f, Run(f, s, xs).0, ys).0
    ensures Run(f, s, xs + ys).1 == Run(f, s, xs).1 + Run(f, Run(f, s, xs).0, ys).1
  {
    if xs == [] {
      assert xs + ys == ys;
    } else {
      assert (xs + ys)[0] == xs[0];
      assert (xs + ys)[1..] == xs[1..] + ys;
      RunAppend(f, f(s, xs[0]).0, xs[1..], ys);
    }
  }

  /** Running over one element is one application of `f`. */
  lemma RunSingle<S, I, O>(f: (S, I) -> (S, seq<O>), s: S, x: I)
    ensures Run(f, s, [x]).0 == f(s, x).0 && Run(f, s, [x]).1 == f(s, x).1
  {
    assert [x][1..] == [];
  }

  /** Mapping one more element extends the fold's output by that element's output. */
  lemma RunSnoc<S, I, O>(f: (S, I) -> (S, seq<O>), s: S, xs: seq<I>, x: I)
    ensures Run(f, s, xs + [x]).0 == f(Run(f, s, xs).0, x).0
    ensures Run(f, s, xs + [x]).1 == Run(f, s, xs).1 + f(Run(f, s, xs).0, x).1
  {
    RunAppend(f, s, xs, [x]);
    RunSingle(f, Run(f, s, xs).0, x);
  }

  /** The concatenation `f(x1) ++ ... ++ f(xn)` for a stateless `f`. */
  function FlatMap<I, O>(f: I -> seq<O>, xs: seq<I>): seq<O>
  {
    if xs == [] then [] else f(xs[0]) + FlatMap(f, xs[1..])
  }

  /** A stateless map function seen as one with trivial state. */
  function Stateless<I, O>(f: I -> seq<O>): ((), I) -> ((), seq<O>)
  {
    (u: (), x: I) => (u, f(x))
  }

  lemma {:induction false} RunStateless<I, O>(f: I -> seq<O>, xs: seq<I>)
    ensures Run(Stateless(f), (), xs) == ((), FlatMap(f, xs))
  {
    if xs != [] {
      RunStateless(f, xs[1..]);
    }
  }

  /** The sentinel as a sequence of zero or one extra inputs. */
  function SentinelSeq<I>(sentinel: Option<I>): (r: seq<I>)
    ensures (sentinel.Some? ==> r == [sentinel.value]) && (sentinel.None? ==> r == [])
  {
    if sentinel.Some? then [sentinel.value] else []
  }

  /** Advancing a cursor over `input` moves one element from the unread part to the read part. */
  lemma CursorStep<I>(input: seq<I>, pos: nat, tail: seq<I>)
    requires pos < |input|
    ensures (input[pos..] + tail)[0] == input[pos]
    ensures (input[pos..] + tail)[1..] == input[pos + 1..] + tail
    ensures input[..pos + 1] == input[..pos] + [input[pos]]
  {
    assert input[pos..] == [input[pos]] + input[pos + 1..];
  }

  /** Taking the element at a buffer cursor moves it from what remains to what was returned. */
  lemma TakeFirst<O>(returned: seq<O>, buffer: seq<O>, bufferPos: nat, rest: seq<O>)
    requires bufferPos < |buffer|
    ensures (buffer[bufferPos..] + rest)[0] == buffer[bufferPos]
    ensures (buffer[bufferPos..] + rest)[1..] == buffer[bufferPos + 1..] + rest
    ensures returned + buffer[bufferPos..] == (returned + [buffer[bufferPos]]) + buffer[bufferPos + 1..]
  {
    assert buffer[bufferPos..] == [buffer[bufferPos]] + buffer[bufferPos + 1..];
  }

  /** Result of `next`: an element, or the `NoSuchElementException` thrown once the output is
      exhausted. */
  datatype Pulled<O> = Element(value: O) | NoSuchElement

  class FlatMapGluer<S, I, O> {
    const mapFunc: (S, I) -> (S, seq<O>)
    const input: seq<I>
    var inputPos: nat             // cursor of the input iterator
    var sentinel: Option<I>       // set to null once it has been mapped
    var buffer: seq<O>            // the sequence behind the current output iterator
    var bufferPos: nat            // cursor of the output iterator
    var mapState: S               // the map function's own state

    ghost const initialState: S
    ghost const initialSentinel: Option<I>
    ghost var applied: seq<I>     // every argument passed to the map function, in order
    ghost var returned: seq<O>    // every element `Next` has returned, in order

    ghost predicate SentinelUsed()
      reads this
    {
      initialSentinel.Some? && sentinel.None?
    }

    ghost predicate Valid()
      reads this
    {
      inputPos <= |input| && bufferPos <= |buffer| &&
      (sentinel.Some? ==> sentinel == initialSentinel) &&
      (SentinelUsed() ==> inputPos == |input|) &&
      applied == input[..inputPos] + (if SentinelUsed() then SentinelSeq(initialSentinel) else []) &&
      Run(mapFunc, initialState, applied).0 == mapState &&
      Run(mapFunc, initialState, applied).1 == returned + buffer[bufferPos..]
    }

    /** The inputs (and sentinel) the map function has not been applied to yet. */
    ghost function Unapplied(): seq<I>
      reads this
    {
      (if inputPos <= |input| then input[inputPos..] else []) + SentinelSeq(sentinel)
    }

    /** The elements still to be returned by `Next`. */
    ghost function Remaining(): seq<O>
      reads this
    {
      (if bufferPos <= |buffer| then buffer[bufferPos..] else []) + Run(mapFunc, mapState, Unapplied()).1
    }

    /** Everything the gluer returns over its lifetime: the map function's outputs on every input,
        then on the sentinel. */
    ghost function Output(): seq<O>
    {
      Run(mapFunc, initialState, input + SentinelSeq(initialSentinel)).1
    }

    /** Nothing is pending in `HasNext`: either an element is buffered or nothing is left to map. */
    ghost predicate Ready()
      reads this
    {
      bufferPos < |buffer| || Unapplied() == []
    }

    /** The map function is applied to a prefix of the inputs followed by the sentinel: each input
        at most once, in order, and the sentinel at most once and only after the last input. */
    lemma AppliedIsPrefix()
      requires Valid()
      ensures applied + Unapplied() == input + SentinelSeq(initialSentinel)
      ensures applied <= input + SentinelSeq(initialSentinel)
      ensures |applied| <= |input| + 1
    {
      if SentinelUsed() {
        assert input[..inputPos] == input;
        assert Unapplied() == [];
      } else {
        assert input[..inputPos] + input[inputPos..] == input;
      }
    }

    /** What has been returned, followed by what remains, is the whole output. */
    lemma ReturnedThenRemaining()
      requires Valid()
      ensures returned + Remaining() == Output()
    {
      AppliedIsPrefix();
      RunAppend(mapFunc, initialState, applied, Unapplied());
    }

    /** The two-argument constructor: no sentinel. */
    constructor (mapFunc: (S, I) -> (S, seq<O>), input: seq<I>, initialState: S)
      ensures Valid()
      ensures this.mapFunc == mapFunc && this.input == input && this.initialState == initialState
      ensures initialSentinel == None && applied == [] && returned == []
      ensures Remaining() == Output() == Run(mapFunc, initialState, input).1
    {
      this.mapFunc := mapFunc;
      this.input := input;
      this.initialState := initialState;
      inputPos := 0;
      sentinel := None;
      initialSentinel := None;
      buffer := [];
      bufferPos := 0;
      mapState := initialState;
      applied := [];
      returned := [];
      new;
      assert input + [] == input;
    }

    /** The three-argument constructor: a sentinel, which may be null. */
    constructor WithSentinel(mapFunc: (S, I) -> (S, seq<O>), input: seq<I>, initialState: S, sentinel: Option<I>)
      ensures Valid()
      ensures this.mapFunc == mapFunc && this.input == input && this.initialState == initialState
      ensures initialSentinel == sentinel && applied == [] && returned == []
      ensures Remaining() == Output() == Run(mapFunc, initialState, input + SentinelSeq(sentinel)).1
    {
      this.mapFunc := mapFunc;
      this.input := input;
      this.initialState := initialState;
      inputPos := 0;
      this.sentinel := sentinel;
      initialSentinel := sentinel;
      buffer := [];
      bufferPos := 0;
      mapState := initialState;
      applied := [];
      returned := [];
    }

    /** One turn of the loop in `HasNext`: map the next input, or else the sentinel (which is then
        dropped), into the buffer; false, changing nothing, when neither is left. */
    method Pull() returns (pulled: bool)
      requires Valid() && bufferPos >= |buffer|
      modifies this
      ensures Valid() && returned == old(returned)
      ensures pulled <==> old(Unapplied()) != []
      ensures !pulled ==> unchanged(this)
      ensures pulled ==>
        applied == old(applied) + [old(Unapplied())[0]] &&
        Unapplied() == old(Unapplied())[1..] &&
        mapState == mapFunc(old(mapState), old(Unapplied())[0]).0 &&
        buffer == mapFunc(old(mapState), old(Unapplied())[0]).1 && bufferPos == 0
      // the map function is applied to an element only once every earlier output was returned
      ensures pulled ==> Run(mapFunc, initialState, old(applied)).1 == returned
      ensures Remaining() == old(Remaining())
    {
      ghost var pending := Unapplied();
      var x;
      if inputPos < |input| {
        x := input[inputPos];
        CursorStep(input, inputPos, SentinelSeq(sentinel));
        inputPos := inputPos + 1;
      } else if sentinel.Some? {
        x := sentinel.value;
        assert input[inputPos..] == [] && input[..inputPos] == input;
        sentinel := None;
      } else {
        return false;
      }
      ghost var before, prevState := applied, mapState;
      assert returned + buffer[bufferPos..] == returned;
      var (s', out) := mapFunc(mapState, x);
      mapState, buffer, bufferPos := s', out, 0;
      applied := applied + [x];
      RunSnoc(mapFunc, initialState, before, x);
      assert Unapplied() == pending[1..];
      return true;
    }

    /** Maps inputs, then the sentinel, until an element is buffered or nothing is left.
        True iff an element remains. It changes nothing that `Next` will return, maps only while
        the buffer is exhausted, and a second call changes nothing at all. */
    method HasNext() returns (b: bool)
      requires Valid()
      modifies this
      ensures Valid() && Ready()
      ensures b <==> Remaining() != []
      ensures b <==> bufferPos < |buffer|
      ensures returned == old(returned) && Remaining() == old(Remaining())
      ensures old(applied) <= applied
      ensures |applied| > |old(applied)| ==> old(bufferPos >= |buffer|) && bufferPos == 0
      ensures old(Ready()) ==> applied == old(applied)
    {
      ghost var applied0 := applied;
      while bufferPos >= |buffer|
        invariant Valid()
        invariant returned == old(returned) && Remaining() == old(Remaining())
        invariant applied0 <= applied
        invariant |applied| > |applied0| ==> old(bufferPos >= |buffer|) && bufferPos == 0
        invariant applied == applied0 ==> bufferPos == old(bufferPos) && buffer == old(buffer)
        decreases |Unapplied()|
      {
        var pulled := Pull();
        if !pulled {
          return false;
        }
      }
      return true;
    }

    /** Returns the next element, or reports `NoSuchElementException` when none is left. */
    method Next() returns (r: Pulled<O>)
      requires Valid()
      modifies this
      ensures Valid()
      ensures old(Remaining()) == [] ==> r == NoSuchElement && returned == old(returned) && Remaining() == []
      ensures old(Remaining()) != [] ==>
        r == Element(old(Remaining())[0]) &&
        returned == old(returned) + [r.value] && Remaining() == old(Remaining())[1..]
    {
      var more := HasNext();
      if !more {
        return NoSuchElement;
      }
      var x := Take();
      r := Element(x);
    }

    /** The output iterator's `next` on a non-empty buffer: the first element still to come moves
        to the returned elements. */
    method Take() returns (x: O)
      requires Valid() && bufferPos < |buffer|
      modifies this
      ensures Valid()
      ensures old(Remaining()) != [] && x == old(Remaining())[0]
      ensures returned == old(returned) + [x] && Remaining() == old(Remaining())[1..]
    {
      ghost var rest := Run(mapFunc, mapState, Unapplied()).1;
      TakeFirst(returned, buffer, bufferPos, rest);
      x := buffer[bufferPos];
      bufferPos := bufferPos + 1;
      returned := returned + [x];
    }
  }

  /** `applyMapFunc(f, it)`: a gluer built with a null sentinel. */
  method ApplyMapFunc<S, I, O>(mapFunc: (S, I) -> (S, seq<O>), input: seq<I>, initialState: S)
    returns (g: FlatMapGluer<S, I, O>)
    ensures fresh(g) && g.Valid() && g.returned == []
    ensures g.mapFunc == mapFunc && g.input == input && g.initialSentinel == None
    ensures g.Remaining() == g.Output() == Run(mapFunc, initialState, input).1
  {
    g := new FlatMapGluer.WithSentinel(mapFunc, input, initialState, None);
    assert input + SentinelSeq<I>(None) == input;
  }

  /** `applyMapFunc(f, it, sentinel)`. */
  method ApplyMapFuncWithSentinel<S, I, O>(mapFunc: (S, I) -> (S, seq<O>), input: seq<I>, initialState: S, sentinel: Option<I>)
    returns (g: FlatMapGluer<S, I, O>)
    ensures fresh(g) && g.Valid() && g.returned == []
    ensures g.mapFunc == mapFunc && g.input == input && g.initialSentinel == sentinel
    ensures g.Remaining() == g.Output() == Run(mapFunc, initialState, input + SentinelSeq(sentinel)).1
  {
    g := new FlatMapGluer.WithSentinel(mapFunc, input, initialState, sentinel);
  }

  /** A consumer that pulls until `HasNext` is false: it receives exactly what remained. */
  method Drain<S, I, O>(g: FlatMapGluer<S, I, O>) returns (out: seq<O>)
    requires g.Valid()
    modifies g
    ensures g.Valid() && g.Remaining() == []
    ensures out == old(g.Remaining()) && g.returned == old(g.returned) + out
  {
    out := [];
    ghost var total, returned0 := g.Remaining(), g.returned;
    while true
      invariant g.Valid()
      invariant total == out + g.Remaining() && g.returned == returned0 + out
      decreases |g.Remaining()|
    {
      ghost var before, returnedBefore := g.Remaining(), g.returned;
      var r := g.Next();
      if r.NoSuchElement? {
        return;
      }
      assert r.value == before[0] && g.Remaining() == before[1..];
      assert g.returned == returnedBefore + [r.value];
      MoveFirst(out, before);
      out := out + [r.value];
    }
  }

  /** Moving the first element of `xs` to the end of `out` keeps their concatenation. */
  lemma MoveFirst<O>(out: seq<O>, xs: seq<O>)
    requires xs != []
    ensures out + xs == (out + [xs[0]]) + xs[1..]
  {
    assert xs == [xs[0]] + xs[1..];
  }

  /** Gluing a stateless function over the input with no sentinel yields exactly
      `f(x1) ++ ... ++ f(xn)`. */
  method FlatMapAll<I, O>(f: I -> seq<O>, input: seq<I>) returns (out: seq<O>)
    ensures out == FlatMap(f, input)
  {
    var g := ApplyMapFunc(Stateless(f), input, ());
    out := Drain(g);
    RunStateless(f, input);
  }

  /** Gluing a stateless function with a sentinel yields `f(x1) ++ ... ++ f(xn)`, then `f` of the
      sentinel when there is one. */
  method FlatMapAllWithSentinel<I, O>(f: I -> seq<O>, input: seq<I>, sentinel: Option<I>) returns (out: seq<O>)
    ensures sentinel.None? ==> out == FlatMap(f, input)
    ensures sentinel.Some? ==> out == FlatMap(f, input) + f(sentinel.value)
  {
    var g := ApplyMapFuncWithSentinel(Stateless(f), input, (), sentinel);
    out := Drain(g);
    RunStateless(f, input + SentinelSeq(sentinel));
    FlatMapAppend(f, input, SentinelSeq(sentinel));
    if sentinel.Some? {
      assert FlatMap(f, [sentinel.value]) == f(sentinel.value) + FlatMap(f, []);
    }
  }

  lemma {:induction false} FlatMapAppend<I, O>(f: I -> seq<O>, xs: seq<I>, ys: seq<I>)
    ensures FlatMap(f, xs + ys) == FlatMap(f, xs) + FlatMap(f, ys)
  {
    if xs == [] {
      assert xs + ys == ys;
    } else {
      assert (xs + ys)[1..] == xs[1..] + ys;
      FlatMapAppend(f, xs[1..], ys);
    }
  }
}
