/** Decoding replies of the Redis server, and two ways of reading a whole hash. */
module RedisReply {
  import opened Common
  import opened Bytes
  import opened CStrings

  /** A reply; elements of an array may be null pointers, and only some types carry a text in `str`. */
  datatype Reply =
    | Array(elements: seq<Option<Reply>>)
    | Text(str: string)
    | Status(str: string)
    | Error(str: string)
    | Integer(value: int)
    | Nil
    | Undefined

  predicate HasText(r: Reply) {
    r.Text? || r.Status? || r.Error?
  }

  /** Replies whose leaves all carry text, as the decoders take for granted. */
  predicate Textual(r: Reply) {
    if r.Array? then forall i :: 0 <= i < |r.elements| && r.elements[i].Some? ==> Textual(r.elements[i].value)
    else HasText(r)
  }

  // ---------------------------------------------------------------- ParamRly

  /** The texts at the leaves, left to right, null elements left out. */
  function Leaves(r: Reply): seq<string>
    requires Textual(r)
    decreases r, 1
  {
    if r.Array? then LeavesUpTo(r, |r.elements|) else [CStr(r.str)]
  }

  /** Those of the first n elements of an array. */
  function LeavesUpTo(r: Reply, n: nat): seq<string>
    requires Textual(r) && r.Array? && n <= |r.elements|
    decreases r, 0, n
  {
    if n == 0 then []
    else LeavesUpTo(r, n - 1) + match r.elements[n - 1] { case None => [] case Some(e) => Leaves(e) }
  }

  method ParamRly(rly: Reply, params0: seq<string>) returns (params: seq<string>)
    requires Textual(rly)
    ensures params == params0 + Leaves(rly)
    decreases rly
  {
    params := params0;
    if rly.Array? {
      for i := 0 to |rly.elements|
        invariant params == params0 + LeavesUpTo(rly, i)
      {
        var rly0 := rly.elements[i];
        if rly0.None? {
          continue;
        }
        if rly0.value.Array? {
          params := ParamRly(rly0.value, params);
        } else {
          params := params + [CStr(rly0.value.str)];
        }
      }
    } else {
      params := params + [CStr(rly.str)];
    }
  }

  // ------------------------------------------------------------ ParamRlyHash

  type Dict = map<string, string>

  /** The replies the pairing decoder can take: arrays with no null element at any depth. */
  predicate Pairable(r: Reply) {
    r.Array? && forall i :: 0 <= i < |r.elements| ==>
      r.elements[i].Some? && (HasText(r.elements[i].value) || Pairable(r.elements[i].value))
  }

  /** A name waits for its value at this level of nesting only. */
  datatype Pairing = Pairing(waiting: Option<string>, params: Dict)

  function Pair(p: Pairing, e: Reply): Pairing
    requires HasText(e) || Pairable(e)
    decreases e, 1
  {
    if e.Array? then p.(params := PairAll(e, |e.elements|, p.params).params)
    else
      match p.waiting
      case None => p.(waiting := Some(CStr(e.str)))
      case Some(key) => Pairing(None, p.params[key := CStr(e.str)])
  }

  /** The first n elements of an array paired off. */
  function PairAll(r: Reply, n: nat, params: Dict): Pairing
    requires Pairable(r) && n <= |r.elements|
    decreases r, 0, n
  {
    if n == 0 then Pairing(None, params)
    else Pair(PairAll(r, n - 1, params), r.elements[n - 1].value)
  }

  method ParamRlyHash(rly: Reply, params0: Dict) returns (params: Dict)
    requires Pairable(rly)
    ensures params == PairAll(rly, |rly.elements|, params0).params
    decreases rly
  {
    params := params0;
    var m, key := 0, "";
    for i := 0 to |rly.elements|
      invariant PairAll(rly, i, params0) == Pairing(if m == 0 then None else Some(key), params)
    {
      var rly0 := rly.elements[i].value;
      if rly0.Array? {
        params := ParamRlyHash(rly0, params);
      } else if m == 0 {
        key := CStr(rly0.str);
        m := 1;
      } else {
        params := params[key := CStr(rly0.str)];
        m := 0;
      }
    }
  }

  // ------------------------------------------- what nesting does, by equations

  lemma {:induction false} SameUpTo(a: Reply, b: Reply, n: nat)
    requires Textual(a) && Textual(b) && a.Array? && b.Array? && n <= |a.elements| && n <= |b.elements|
    requires forall i :: 0 <= i < n ==> a.elements[i] == b.elements[i]
    ensures LeavesUpTo(a, n) == LeavesUpTo(b, n)
  {
    if n > 0 {
      SameUpTo(a, b, n - 1);
    }
  }

  lemma TextualJoin(a: seq<Option<Reply>>, b: seq<Option<Reply>>)
    requires Textual(Array(a)) && Textual(Array(b))
    ensures Textual(Array(a + b))
  {
    forall i | 0 <= i < |a + b| && (a + b)[i].Some? ensures Textual((a + b)[i].value) {
      assert (a + b)[i] == if i < |a| then a[i] else b[i - |a|];
    }
  }

  lemma {:induction false} JoinUpTo(a: seq<Option<Reply>>, b: seq<Option<Reply>>, n: nat)
    requires Textual(Array(a)) && Textual(Array(b)) && Textual(Array(a + b)) && n <= |b|
    ensures LeavesUpTo(Array(a + b), |a| + n) == LeavesUpTo(Array(a), |a|) + LeavesUpTo(Array(b), n)
  {
    if n == 0 {
      SameUpTo(Array(a + b), Array(a), |a|);
    } else {
      JoinUpTo(a, b, n - 1);
      assert (a + b)[|a| + n - 1] == b[n - 1];
      var last := match b[n - 1] { case None => [] case Some(e) => Leaves(e) };
      Assoc(LeavesUpTo(Array(a), |a|), LeavesUpTo(Array(b), n - 1), last);
    }
  }

  /** The leaves of a list of replies are those of its parts in order, at any depth. */
  lemma LeavesJoin(a: seq<Option<Reply>>, b: seq<Option<Reply>>)
    requires Textual(Array(a)) && Textual(Array(b))
    ensures Textual(Array(a + b)) && Leaves(Array(a + b)) == Leaves(Array(a)) + Leaves(Array(b))
  {
    TextualJoin(a, b);
    JoinUpTo(a, b, |b|);
  }

  /** A single element contributes nothing if it is null, its own leaves otherwise; a text is its own leaf. */
  lemma LeavesOne(r: Reply)
    requires Textual(r)
    ensures Leaves(Array([None])) == [] && Leaves(Array([Some(r)])) == Leaves(r)
    ensures !r.Array? ==> Leaves(r) == [CStr(r.str)]
  {
    assert LeavesUpTo(Array([None]), 0) == [] && LeavesUpTo(Array([Some(r)]), 0) == [];
  }

  /** A list of names with their values, each in an array of its own. */
  function Nested(pairs: seq<(string, string)>): Reply {
    Array(seq(|pairs|, i requires 0 <= i < |pairs| => Some(Array([Some(Text(pairs[i].0)), Some(Text(pairs[i].1))]))))
  }

  function SetAll(params: Dict, pairs: seq<(string, string)>, n: nat): Dict
    requires n <= |pairs|
  {
    if n == 0 then params else SetAll(params, pairs, n - 1)[CStr(pairs[n - 1].0) := CStr(pairs[n - 1].1)]
  }

  /** An array of one name and one value sets it. */
  lemma OnePair(name: string, value: string, params: Dict)
    ensures var r := Array([Some(Text(name)), Some(Text(value))]);
      Pairable(r) && PairAll(r, 2, params) == Pairing(None, params[CStr(name) := CStr(value)])
  {
    var r := Array([Some(Text(name)), Some(Text(value))]);
    assert PairAll(r, 0, params) == Pairing(None, params);
    assert PairAll(r, 1, params) == Pairing(Some(CStr(name)), params);
  }

  /** Pairs nested one level deeper are set in order, like a flat list. */
  lemma {:induction false} NestedPairs(pairs: seq<(string, string)>, params: Dict, n: nat)
    requires n <= |pairs|
    ensures Pairable(Nested(pairs)) && PairAll(Nested(pairs), n, params) == Pairing(None, SetAll(params, pairs, n))
  {
    if n > 0 {
      NestedPairs(pairs, params, n - 1);
      OnePair(pairs[n - 1].0, pairs[n - 1].1, SetAll(params, pairs, n - 1));
      var inner := Nested(pairs).elements[n - 1].value;
      assert inner == Array([Some(Text(pairs[n - 1].0)), Some(Text(pairs[n - 1].1))]);
    }
  }

  /** A name waits across an inner array for its value, and one that never comes leaves nothing. */
  lemma NameWaits(name: string, value: string, a: string, b: string, params: Dict)
    ensures var inner := Some(Array([Some(Text(a)), Some(Text(b))]));
      var r, alone := Array([Some(Text(name)), inner, Some(Text(value))]), Array([Some(Text(name))]);
      && Pairable(r) && PairAll(r, 3, params).params == params[CStr(a) := CStr(b)][CStr(name) := CStr(value)]
      && Pairable(alone) && PairAll(alone, 1, params).params == params
  {
    var inner := Array([Some(Text(a)), Some(Text(b))]);
    var r, alone := Array([Some(Text(name)), Some(inner), Some(Text(value))]), Array([Some(Text(name))]);
    OnePair(a, b, params);
    assert PairAll(alone, 0, params) == PairAll(r, 0, params) == Pairing(None, params);
    assert PairAll(r, 1, params) == Pairing(Some(CStr(name)), params);
    assert PairAll(r, 2, params) == Pairing(Some(CStr(name)), params[CStr(a) := CStr(b)]);
  }
}
