/** `combineReducers`: it checks its argument, keeps the keys whose values
    are functions, and returns `finalReducer`, which builds a fresh state
    object by running each reducer on its own slice of the previous state. */
module Reducers {
  import opened Js

  /** A property of the object given to `combineReducers`: a function, known
      by its identity `fn`, or a value of any other type. */
  datatype Member<F> = Function(fn: F) | NotFunction

  /** The argument of `combineReducers`, as `typeof` and `Object.keys` see it:
      not an object at all, `null` (whose `typeof` is "object"), or an object. */
  datatype ReducersArg<F> = NotAnObject | NullObject | Object(props: Dict<Member<F>>)

  /** What the closure `finalReducer` captures: the reducers object and the
      keys chosen from it. */
  datatype Combined<F> = Combined(reducers: map<string, Member<F>>, reducerKeys: seq<string>) {
    ghost predicate Valid() {
      forall k <- reducerKeys :: k in reducers && reducers[k].Function?
    }
  }

  /** The keys of `keys`, in order, whose value in `entries` is a function. */
  function FunctionKeys<F>(keys: seq<string>, entries: map<string, Member<F>>): (chosen: seq<string>)
    requires forall k <- keys :: k in entries
    ensures forall k <- chosen :: k in entries && entries[k].Function?
  {
    if keys == [] then []
    else (if entries[keys[0]].Function? then [keys[0]] else []) + FunctionKeys(keys[1..], entries)
  }

  /** `FunctionKeys` keeps exactly the function-valued keys, in their order. */
  lemma {:induction false} FunctionKeysMeaning<F>(keys: seq<string>, entries: map<string, Member<F>>)
    requires forall k <- keys :: k in entries
    ensures IsSubsequence(FunctionKeys(keys, entries), keys)
    ensures forall k :: k in FunctionKeys(keys, entries) <==> k in keys && entries[k].Function?
  {
    if keys != [] {
      var rest := FunctionKeys(keys[1..], entries);
      FunctionKeysMeaning(keys[1..], entries);
      if entries[keys[0]].Function? {
        assert FunctionKeys(keys, entries) == [keys[0]] + rest;
        assert ([keys[0]] + rest)[1..] == rest;
      } else {
        assert FunctionKeys(keys, entries) == rest;
        if rest != [] {
          SkipHead(rest, keys);
        }
      }
    }
  }

  /** `combineReducers(reducers)`. */
  function CombineReducers<F>(arg: ReducersArg<F>): Completion<Combined<F>>
    requires arg.Object? ==> arg.props.Valid()
  {
    match arg
    case NotAnObject => Throw(Error("Invalid Params"))
    case NullObject => Throw(TypeError)
    case Object(props) => Normal(Combined(props.entries, FunctionKeys(props.keys, props.entries)))
  }

  /** A non-object argument is refused with `Invalid Params`, `null` makes
      `Object.keys` throw, and an object yields exactly its function-valued
      keys, in key order and without repetition. */
  lemma CombineReducersResult<F>(arg: ReducersArg<F>)
    requires arg.Object? ==> arg.props.Valid()
    ensures arg.NotAnObject? ==> CombineReducers(arg) == Throw(Error("Invalid Params"))
    ensures arg.NullObject? ==> CombineReducers(arg) == Throw(TypeError)
    ensures arg.Object? ==>
      var c := CombineReducers(arg);
      && c.Normal?
      && c.value.Valid()
      && c.value.reducers == arg.props.entries
      && IsSubsequence(c.value.reducerKeys, arg.props.keys)
      && Distinct(c.value.reducerKeys)
      && (forall k :: k in c.value.reducerKeys <==> k in arg.props.entries && arg.props.entries[k].Function?)
  {
    if arg.Object? {
      FunctionKeysMeaning(arg.props.keys, arg.props.entries);
      SubsequenceDistinct(FunctionKeys(arg.props.keys, arg.props.entries), arg.props.keys);
    }
  }

  /** A plain object the reducers read or build: its keys in insertion order
      and the value under each. */
  class StateTree<S> {
    var props: Dict<S>

    /** `{}` */
    constructor Empty()
      ensures props == Dict([], map[])
    {
      props := Dict([], map[]);
    }

    /** `this[key]`, `undefined` (None) when there is no such key. */
    function Slice(key: string): Option<S>
      reads this
    {
      Get(props.entries, key)
    }

    /** `this[key] = value` */
    method Assign(key: string, value: S)
      modifies this
      ensures props == old(props).Put(key, value)
    {
      props := props.Put(key, value);
    }
  }

  /** The `state` argument of `finalReducer`: left out (undefined), `null`,
      or an object. */
  datatype StateArg<S> = Missing | NullState | Given(tree: StateTree<S>)

  /** The slices of the previous state; a missing state is `{}`. */
  function Slices<S>(state: StateArg<S>): map<string, S>
    reads if state.Given? then {state.tree} else {}
  {
    if state.Given? then state.tree.props.entries else map[]
  }

  /** The state built from `acc` by running the reducers of `keys` in order,
      or the `Invalid Reducer` error of the first that returns undefined. */
  function Reduce<F, S, A>(keys: seq<string>, reducers: map<string, Member<F>>,
                           call: (F, Option<S>, A) -> Option<S>,
                           slices: map<string, S>, action: A, acc: Dict<S>): Completion<Dict<S>>
    requires forall k <- keys :: k in reducers && reducers[k].Function?
  {
    if keys == [] then Normal(acc)
    else
      match call(reducers[keys[0]].fn, Get(slices, keys[0]), action)
      case None => Throw(Error("Invalid Reducer"))
      case Some(next) => Reduce(keys[1..], reducers, call, slices, action, acc.Put(keys[0], next))
  }

  /** What `finalReducer(state, action)` returns or throws; reading a slice of
      `null` throws as soon as there is a reducer to run. */
  function FinalSpec<F, S, A>(c: Combined<F>, call: (F, Option<S>, A) -> Option<S>,
                              state: StateArg<S>, action: A): Completion<Dict<S>>
    requires c.Valid()
    reads if state.Given? then {state.tree} else {}
  {
    if state.NullState? && c.reducerKeys != [] then Throw(TypeError)
    else Reduce(c.reducerKeys, c.reducers, call, Slices(state), action, Dict([], map[]))
  }

  /** Running the reducers from position `i` on starts with reducer `i`. */
  lemma ReduceAt<F, S, A>(keys: seq<string>, i: nat, reducers: map<string, Member<F>>,
                          call: (F, Option<S>, A) -> Option<S>,
                          slices: map<string, S>, action: A, acc: Dict<S>)
    requires i < |keys| && forall k <- keys :: k in reducers && reducers[k].Function?
    ensures Reduce(keys[i..], reducers, call, slices, action, acc) ==
      match call(reducers[keys[i]].fn, Get(slices, keys[i]), action)
      case None => Throw(Error("Invalid Reducer"))
      case Some(next) => Reduce(keys[i + 1..], reducers, call, slices, action, acc.Put(keys[i], next))
  {
    assert keys[i..][0] == keys[i] && keys[i..][1..] == keys[i + 1..];
  }

  /** `finalReducer`: run every chosen reducer on its slice of the previous
      state and collect the results in a fresh object, stopping with
      `Invalid Reducer` at the first reducer that returns undefined. */
  method FinalReducer<F, S, A>(c: Combined<F>, call: (F, Option<S>, A) -> Option<S>,
                               state: StateArg<S>, action: A)
    returns (r: Completion<StateTree<S>>)
    requires c.Valid()
    ensures r.Normal? ==> fresh(r.value)
    ensures state.Given? ==> unchanged(state.tree)
    ensures FinalSpec(c, call, state, action) == match r
      case Normal(tree) => Normal(tree.props)
      case Throw(e) => Throw(e)
  {
    var nextState := new StateTree.Empty();
    assert c.reducerKeys[0..] == c.reducerKeys;
    for i := 0 to |c.reducerKeys|
      invariant fresh(nextState)
      invariant state.NullState? ==> i == 0 && nextState.props == Dict([], map[])
      invariant !state.NullState? ==>
        FinalSpec(c, call, state, action)
        == Reduce(c.reducerKeys[i..], c.reducers, call, Slices(state), action, nextState.props)
    {
      var key := c.reducerKeys[i];
      var reducer := c.reducers[key];
      if state.NullState? {
        return Throw(TypeError);
      }
      var stateByKey := if state.Given? then state.tree.Slice(key) else None;
      var nextStateByKey := call(reducer.fn, stateByKey, action);
      ReduceAt(c.reducerKeys, i, c.reducers, call, Slices(state), action, nextState.props);
      if nextStateByKey.None? {
        return Throw(Error("Invalid Reducer"));
      }
      nextState.Assign(key, nextStateByKey.value);
    }
    assert c.reducerKeys[|c.reducerKeys|..] == [];
    return Normal(nextState);
  }

  /** Each reducer's result lands under its own key, after what `acc`
      already holds; with distinct keys nothing is overwritten. */
  lemma {:induction false} ReduceNormal<F, S, A>(keys: seq<string>, reducers: map<string, Member<F>>,
                                                 call: (F, Option<S>, A) -> Option<S>,
                                                 slices: map<string, S>, action: A, acc: Dict<S>)
    requires forall k <- keys :: k in reducers && reducers[k].Function?
    requires Distinct(keys) && forall k <- keys :: k !in acc.entries
    requires Reduce(keys, reducers, call, slices, action, acc).Normal?
    ensures var d := Reduce(keys, reducers, call, slices, action, acc).value;
      && d.keys == acc.keys + keys
      && (acc.Valid() ==> d.Valid())
      && (forall k <- acc.entries :: k in d.entries && d.entries[k] == acc.entries[k])
      && (forall k <- keys :: k in d.entries && Some(d.entries[k]) == call(reducers[k].fn, Get(slices, k), action))
  {
    if keys == [] {
      assert acc.keys + [] == acc.keys;
    } else {
      var k0 := keys[0];
      var next := call(reducers[k0].fn, Get(slices, k0), action).value;
      assert Distinct(keys[1..]);
      forall k | k in keys[1..] ensures k !in acc.Put(k0, next).entries {
        var j :| 0 <= j < |keys[1..]| && keys[1..][j] == k;
        assert keys[j + 1] == k;
      }
      ReduceNormal(keys[1..], reducers, call, slices, action, acc.Put(k0, next));
      assert acc.keys + keys == (acc.keys + [k0]) + keys[1..];
    }
  }

  /** `finalReducer` throws `Invalid Reducer` exactly when some reducer
      returns undefined, and never returns a partial state. */
  lemma {:induction false} ReduceThrows<F, S, A>(keys: seq<string>, reducers: map<string, Member<F>>,
                                                 call: (F, Option<S>, A) -> Option<S>,
                                                 slices: map<string, S>, action: A, acc: Dict<S>)
    requires forall k <- keys :: k in reducers && reducers[k].Function?
    ensures Reduce(keys, reducers, call, slices, action, acc).Throw? <==>
      exists k <- keys :: call(reducers[k].fn, Get(slices, k), action).None?
    ensures Reduce(keys, reducers, call, slices, action, acc).Throw? ==>
      Reduce(keys, reducers, call, slices, action, acc).error == Error("Invalid Reducer")
  {
    if keys != [] {
      var k0 := keys[0];
      match call(reducers[k0].fn, Get(slices, k0), action)
      case None =>
      case Some(next) =>
        ReduceThrows(keys[1..], reducers, call, slices, action, acc.Put(k0, next));
        assert forall k <- keys :: k == k0 || k in keys[1..];
    }
  }

  /** The state `finalReducer` returns has exactly the reducer keys, in order,
      and under each key what that key's reducer made of the key's slice. */
  lemma FinalState<F, S, A>(c: Combined<F>, call: (F, Option<S>, A) -> Option<S>,
                            state: StateArg<S>, action: A)
    requires c.Valid() && Distinct(c.reducerKeys)
    requires FinalSpec(c, call, state, action).Normal?
    ensures var d := FinalSpec(c, call, state, action).value;
      && d.Valid()
      && d.keys == c.reducerKeys
      && (forall k <- c.reducerKeys :: Some(d.entries[k]) == call(c.reducers[k].fn, Get(Slices(state), k), action))
  {
    ReduceNormal(c.reducerKeys, c.reducers, call, Slices(state), action, Dict([], map[]));
    assert [] + c.reducerKeys == c.reducerKeys;
  }

  /** `finalReducer` throws exactly when the state is `null` and there is a
      reducer, or when some reducer returns undefined for its slice. */
  lemma FinalThrows<F, S, A>(c: Combined<F>, call: (F, Option<S>, A) -> Option<S>,
                             state: StateArg<S>, action: A)
    requires c.Valid()
    ensures FinalSpec(c, call, state, action).Throw? <==>
      if state.NullState? then c.reducerKeys != []
      else exists k <- c.reducerKeys :: call(c.reducers[k].fn, Get(Slices(state), k), action).None?
    ensures !state.NullState? && FinalSpec(c, call, state, action).Throw? ==>
      FinalSpec(c, call, state, action).error == Error("Invalid Reducer")
  {
    ReduceThrows(c.reducerKeys, c.reducers, call, Slices(state), action, Dict([], map[]));
  }

  /** Without a previous state every reducer receives undefined for its
      slice, so each contributes its own initial state. */
  lemma MissingStateDefaults<F, S, A>(c: Combined<F>, call: (F, Option<S>, A) -> Option<S>, action: A)
    requires c.Valid() && Distinct(c.reducerKeys)
    requires FinalSpec(c, call, Missing, action).Normal?
    ensures forall k <- c.reducerKeys ::
      && k in FinalSpec(c, call, Missing, action).value.entries
      && Some(FinalSpec(c, call, Missing, action).value.entries[k]) == call(c.reducers[k].fn, None, action)
  {
    FinalState(c, call, Missing, action);
  }

  /** Combining an object and reducing: the new state holds exactly the
      function-valued keys of the object, in key order, each with what its
      reducer made of its slice. */
  lemma CombineThenReduce<F, S, A>(props: Dict<Member<F>>, call: (F, Option<S>, A) -> Option<S>,
                                   state: StateArg<S>, action: A)
    requires props.Valid()
    ensures var c := CombineReducers(Object(props)).value;
      c.Valid() && (FinalSpec(c, call, state, action).Normal? ==>
        var d := FinalSpec(c, call, state, action).value;
        && IsSubsequence(d.keys, props.keys)
        && (forall k :: k in d.entries <==> k in props.entries && props.entries[k].Function?)
        && (forall k <- d.entries :: Some(d.entries[k]) == call(props.entries[k].fn, Get(Slices(state), k), action)))
  {
    CombineReducersResult(Object(props));
    var c := CombineReducers(Object(props)).value;
    if FinalSpec(c, call, state, action).Normal? {
      FinalState(c, call, state, action);
    }
  }
}
