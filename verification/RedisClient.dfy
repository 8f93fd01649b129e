/** The hash commands of the client against a server that holds one hash, unchanged meanwhile. */
module RedisClient {
  import opened Common
  import opened CStrings
  import opened RedisReply
  import RedisPool

  /** The hash at `key`: its fields and the order in which the server lists them. */
  datatype Store = Store(key: string, fields: Dict, order: seq<string>)

  /** A name that survives being spliced into a command: not empty, without spaces, NUL or format directives. */
  predicate Word(s: string) {
    s != "" && ' ' !in s && NUL !in s && '%' !in s
  }

  predicate Valid(st: Store) {
    && Word(st.key)
    && (forall i :: 0 <= i < |st.order| ==> st.order[i] in st.fields)
    && (forall i, j :: 0 <= i < j < |st.order| ==> st.order[i] != st.order[j])
    && (forall f :: f in st.fields ==> f in st.order)
  }

  /** All field names survive being spliced into a command. */
  predicate NamesAreWords(st: Store) {
    forall i :: 0 <= i < |st.order| ==> Word(st.order[i])
  }

  // ------------------------------------------------------------- the server

  /** Length of the leading run without spaces. */
  function WordLength(s: string): (n: nat)
    ensures n <= |s|
  {
    if s == "" || s[0] == ' ' then 0 else 1 + WordLength(s[1..])
  }

  /** A command text is cut at spaces; runs of spaces count once. */
  function Words(s: string): seq<string>
    decreases |s|
  {
    if s == "" then []
    else if s[0] == ' ' then Words(s[1..])
    else [s[..WordLength(s)]] + Words(s[WordLength(s)..])
  }

  function Texts(ss: seq<string>): seq<Option<Reply>> {
    seq(|ss|, i requires 0 <= i < |ss| => Some(Text(ss[i])))
  }

  /** Names and values in turn. */
  function Listing(st: Store, n: nat): seq<string>
    requires n <= |st.order| && forall i :: 0 <= i < |st.order| ==> st.order[i] in st.fields
  {
    if n == 0 then [] else Listing(st, n - 1) + [st.order[n - 1], st.fields[st.order[n - 1]]]
  }

  /** What the server answers to a command given as a C string. */
  function Answer(st: Store, command: string): Reply
    requires Valid(st)
  {
    var words := Words(CStr(command));
    if words == ["hkeys", st.key] then Array(Texts(st.order))
    else if words == ["hgetall", st.key] then Array(Texts(Listing(st, |st.order|)))
    else if |words| == 3 && words[0] == "hget" && words[1] == st.key then
      if words[2] in st.fields then Text(st.fields[words[2]]) else Nil
    else Error("ERR")
  }

  // ------------------------------------------------------- command splicing

  lemma {:induction false} WordLengthOf(w: string, tail: string)
    requires ' ' !in w && (tail != "" ==> tail[0] == ' ')
    ensures WordLength(w + tail) == |w|
  {
    if w != "" {
      WordLengthOf(w[1..], tail);
      assert (w + tail)[1..] == w[1..] + tail;
    } else {
      assert w + tail == tail;
    }
  }

  lemma WordsCons(w: string, tail: string)
    requires w != "" && ' ' !in w
    ensures Words(w + (" " + tail)) == [w] + Words(tail)
  {
    var s := w + (" " + tail);
    WordLengthOf(w, " " + tail);
    assert s[..|w|] == w && s[|w|..] == " " + tail;
    assert (" " + tail)[1..] == tail;
  }

  lemma WordsOne(w: string)
    requires w != "" && ' ' !in w
    ensures Words(w) == [w]
  {
    WordLengthOf(w, "");
    assert w + "" == w && w[..|w|] == w && w[|w|..] == "";
  }

  /** `command + '\0'` passed through `c_str` is the command. */
  lemma {:induction false} CStrOfTerminated(s: string)
    requires NUL !in s
    ensures CStr(s + [NUL]) == s
  {
    if s != "" {
      CStrOfTerminated(s[1..]);
      assert (s + [NUL])[1..] == s[1..] + [NUL];
    }
  }

  lemma WordsTwo(verb: string, key: string)
    requires Word(verb) && Word(key)
    ensures Words(CStr(verb + " " + key + [NUL])) == [verb, key]
  {
    CStrOfTerminated(verb + " " + key);
    assert verb + " " + key == verb + (" " + key);
    WordsCons(verb, key);
    WordsOne(key);
  }

  lemma WordsThree(verb: string, key: string, field: string)
    requires Word(verb) && Word(key) && Word(field)
    ensures Words(CStr(verb + " " + key + " " + field)) == [verb, key, field]
  {
    var s := verb + " " + key + " " + field;
    CStrKeeps(s);
    assert s == verb + (" " + (key + (" " + field)));
    WordsCons(verb, key + (" " + field));
    WordsCons(key, field);
    WordsOne(field);
  }

  lemma AnswerKeys(st: Store)
    requires Valid(st)
    ensures Answer(st, "hkeys" + " " + st.key + [NUL]) == Array(Texts(st.order))
  {
    WordsTwo("hkeys", st.key);
  }

  lemma AnswerAll(st: Store)
    requires Valid(st)
    ensures Answer(st, "hgetall" + " " + st.key + [NUL]) == Array(Texts(Listing(st, |st.order|)))
  {
    WordsTwo("hgetall", st.key);
  }

  lemma AnswerField(st: Store, f: string)
    requires Valid(st) && Word(f)
    ensures Answer(st, "hget" + " " + st.key + " " + f) == if f in st.fields then Text(st.fields[f]) else Nil
  {
    WordsThree("hget", st.key, f);
  }

  // ------------------------------------------------------------- the client

  /** What a command brings back: nothing if the connection is down and stays down, or is lost meanwhile. */
  function Exchange(st: Store, command: string, answered: bool): Option<Reply>
    requires Valid(st)
  {
    if answered then Some(Answer(st, command)) else None
  }

  /** `ExecuteResonse`; `printed` stands for the decimal text of an integer. */
  method ExecuteResponse(reply: Option<Reply>, response0: string, printed: int -> string)
    returns (ok: bool, response: string)
    ensures ok <==> reply.Some? && !reply.value.Error? && !reply.value.Undefined?
    ensures reply.Some? && HasText(reply.value) ==> response == reply.value.str
    ensures reply == Some(Nil) ==> response == ""
    ensures reply.Some? && reply.value.Integer? ==> response == printed(reply.value.value)
    ensures reply.None? || reply.value.Array? ==> response == response0
  {
    if reply.None? {
      return false, response0;
    }
    match reply.value
    case Integer(value) => return true, printed(value);
    case Text(s) => return true, s;
    case Status(s) => return true, s;
    case Nil => return true, "";
    case Error(s) => return false, s;
    case Array(_) => return true, response0;
    case Undefined => return false, "Undefine Reply Type";
  }

  /** `ExecuteVector`; a reply that is not an array adds nothing. */
  method ExecuteVector(reply: Option<Reply>, response0: seq<string>) returns (ok: bool, response: seq<string>)
    requires reply.Some? && reply.value.Array? ==> Textual(reply.value)
    ensures ok <==> reply.Some?
    ensures response == if ok && reply.value.Array? then response0 + Leaves(reply.value) else response0
  {
    ok, response := reply.Some?, response0;
    if ok && reply.value.Array? {
      response := ParamRly(reply.value, response);
    }
  }

  /** `ExecuteMap` */
  method ExecuteMap(reply: Option<Reply>, response0: Dict) returns (ok: bool, response: Dict)
    requires reply.Some? && reply.value.Array? ==> Pairable(reply.value)
    ensures ok <==> reply.Some?
    ensures response
         == if ok && reply.value.Array? then PairAll(reply.value, |reply.value.elements|, response0).params
            else response0
  {
    ok, response := reply.Some?, response0;
    if ok && reply.value.Array? {
      response := ParamRlyHash(reply.value, response);
    }
  }

  /** The texts as they come through `char*`. */
  function CutTexts(ss: seq<string>): seq<string> {
    seq(|ss|, i requires 0 <= i < |ss| => CStr(ss[i]))
  }

  lemma {:induction false} LeavesOfTexts(ss: seq<string>, n: nat)
    requires n <= |ss|
    ensures LeavesUpTo(Array(Texts(ss)), n) == CutTexts(ss)[..n]
  {
    if n > 0 {
      LeavesOfTexts(ss, n - 1);
      assert CutTexts(ss)[..n] == CutTexts(ss)[..n - 1] + [CStr(ss[n - 1])];
    }
  }

  /** The first n of the names, in order, set to what `dict` holds for them, where the command was answered. */
  function Filled(order: seq<string>, dict: Dict, response: Dict, answered: nat -> bool, n: nat): Dict
    requires n <= |order| && forall i :: 0 <= i < |order| ==> order[i] in dict
  {
    if n == 0 then response
    else
      var before := Filled(order, dict, response, answered, n - 1);
      if answered(n - 1) then before[order[n - 1] := dict[order[n - 1]]] else before
  }

  /** The names whose command was answered. */
  function Given(order: seq<string>, answered: nat -> bool, n: nat): set<string>
    requires n <= |order|
  {
    if n == 0 then {} else Given(order, answered, n - 1) + if answered(n - 1) then {order[n - 1]} else {}
  }

  function Always(i: nat): bool {
    true
  }

  lemma {:induction false} GivenIn(order: seq<string>, answered: nat -> bool, n: nat)
    requires n <= |order|
    ensures forall f :: f in Given(order, answered, n) <==> exists i :: 0 <= i < n && answered(i) && order[i] == f
  {
    if n > 0 {
      GivenIn(order, answered, n - 1);
    }
  }

  lemma {:induction false} FilledIs(order: seq<string>, dict: Dict, response: Dict, answered: nat -> bool, n: nat)
    requires n <= |order| && forall i :: 0 <= i < |order| ==> order[i] in dict
    ensures Given(order, answered, n) <= dict.Keys
    ensures Filled(order, dict, response, answered, n) == response + map f | f in Given(order, answered, n) :: dict[f]
  {
    if n > 0 {
      FilledIs(order, dict, response, answered, n - 1);
    } else {
      assert response + map[] == response;
    }
  }

  lemma FilledAll(order: seq<string>, dict: Dict, response: Dict, answered: nat -> bool)
    requires forall i :: 0 <= i < |order| ==> order[i] in dict
    requires forall f :: f in dict ==> f in order
    requires forall i: nat :: i < |order| ==> answered(i)
    ensures Filled(order, dict, response, answered, |order|) == response + dict
  {
    GivenAll(order, dict.Keys, answered);
    FilledIs(order, dict, response, answered, |order|);
    WholeMap(dict, Given(order, answered, |order|));
  }

  lemma GivenAll(order: seq<string>, names: set<string>, answered: nat -> bool)
    requires forall f :: f in names <==> f in order
    requires forall i: nat :: i < |order| ==> answered(i)
    ensures Given(order, answered, |order|) == names
  {
    GivenIn(order, answered, |order|);
  }

  lemma WholeMap(dict: Dict, names: set<string>)
    requires names == dict.Keys
    ensures (map f | f in names :: dict[f]) == dict
  {
  }

  /** The values as they come through `char*`. */
  function Cut(fields: Dict): Dict {
    map f | f in fields :: CStr(fields[f])
  }

  lemma {:induction false} ListingLength(st: Store, n: nat)
    requires Valid(st) && n <= |st.order|
    ensures |Listing(st, n)| == 2 * n
    ensures forall i :: 0 <= i < n ==> Listing(st, n)[2 * i] == st.order[i]
    ensures forall i :: 0 <= i < n ==> Listing(st, n)[2 * i + 1] == st.fields[st.order[i]]
  {
    if n > 0 {
      ListingLength(st, n - 1);
    }
  }

  /** The first n of the names set to their values, both as they come through `char*`. */
  function Paired(order: seq<string>, fields: Dict, response: Dict, n: nat): Dict
    requires n <= |order| && forall i :: 0 <= i < |order| ==> order[i] in fields
  {
    if n == 0 then response
    else Paired(order, fields, response, n - 1)[CStr(order[n - 1]) := CStr(fields[order[n - 1]])]
  }

  /** A name and then a value, with no name waiting before, set the name. */
  lemma PairTwo(r: Reply, i: nat, name: string, value: string, response: Dict, before: Dict)
    requires Pairable(r) && i + 1 < |r.elements|
    requires r.elements[i] == Some(Text(name)) && r.elements[i + 1] == Some(Text(value))
    requires PairAll(r, i, response) == Pairing(None, before)
    ensures PairAll(r, i + 2, response) == Pairing(None, before[CStr(name) := CStr(value)])
  {
    assert PairAll(r, i + 1, response) == Pair(PairAll(r, i, response), r.elements[i].value);
  }

  /** Name i and its value are entries 2i and 2i + 1 of the reply. */
  predicate Lists(order: seq<string>, fields: Dict, r: Reply, i: nat)
    requires i < |order|
  {
    && r.Array? && |r.elements| == 2 * |order| && order[i] in fields
    && r.elements[2 * i] == Some(Text(order[i]))
    && r.elements[2 * i + 1] == Some(Text(fields[order[i]]))
  }

  lemma ListingLists(st: Store, i: nat)
    requires Valid(st) && i < |st.order|
    ensures Lists(st.order, st.fields, Array(Texts(Listing(st, |st.order|))), i)
  {
    ListingLength(st, |st.order|);
  }

  /** Pairing off the listing sets each name, cut, to its cut value. */
  lemma {:induction false} ListingPairs(order: seq<string>, fields: Dict, r: Reply, response: Dict, n: nat)
    requires n <= |order| && Pairable(r) && |r.elements| == 2 * |order|
    requires forall i :: 0 <= i < |order| ==> Lists(order, fields, r, i)
    ensures forall i :: 0 <= i < |order| ==> order[i] in fields
    ensures PairAll(r, 2 * n, response) == Pairing(None, Paired(order, fields, response, n))
  {
    forall i | 0 <= i < |order| ensures order[i] in fields {
      assert Lists(order, fields, r, i);
    }
    if n > 0 {
      ListingPairs(order, fields, r, response, n - 1);
      var name := order[n - 1];
      assert Lists(order, fields, r, n - 1);
      PairTwo(r, 2 * (n - 1), name, fields[name], response, Paired(order, fields, response, n - 1));
    }
  }

  /** With names that have no NUL that is overriding by all fields, values cut. */
  lemma PairedAll(order: seq<string>, fields: Dict, response: Dict)
    requires forall i :: 0 <= i < |order| ==> order[i] in fields && NUL !in order[i]
    requires forall f :: f in fields ==> f in order
    ensures Paired(order, fields, response, |order|) == response + Cut(fields)
  {
    PairedIsFilled(order, fields, response, |order|);
    FilledAll(order, Cut(fields), response, Always);
  }

  lemma {:induction false} PairedIsFilled(order: seq<string>, fields: Dict, response: Dict, n: nat)
    requires n <= |order| && forall i :: 0 <= i < |order| ==> order[i] in fields && NUL !in order[i]
    ensures Paired(order, fields, response, n) == Filled(order, Cut(fields), response, Always, n)
  {
    if n > 0 {
      PairedIsFilled(order, fields, response, n - 1);
      CStrKeeps(order[n - 1]);
    }
  }

  lemma HKeysDecodes(st: Store)
    requires Valid(st)
    ensures Textual(Array(Texts(st.order))) && Leaves(Array(Texts(st.order))) == CutTexts(st.order)
  {
    LeavesOfTexts(st.order, |st.order|);
    assert CutTexts(st.order)[..|st.order|] == CutTexts(st.order);
  }

  lemma WordsUncut(st: Store)
    requires NamesAreWords(st)
    ensures CutTexts(st.order) == st.order
  {
    forall i | 0 <= i < |st.order| ensures CStr(st.order[i]) == st.order[i] {
      assert Word(st.order[i]);
      CStrKeeps(st.order[i]);
    }
  }

  lemma HGetAllDecodes(st: Store, response: Dict)
    requires Valid(st)
    ensures var r := Array(Texts(Listing(st, |st.order|)));
      Pairable(r) && |r.elements| == 2 * |st.order|
      && PairAll(r, |r.elements|, response).params == Paired(st.order, st.fields, response, |st.order|)
  {
    var r := Array(Texts(Listing(st, |st.order|)));
    ListingLength(st, |st.order|);
    forall i | 0 <= i < |st.order| ensures Lists(st.order, st.fields, r, i) {
      ListingLists(st, i);
    }
    ListingPairs(st.order, st.fields, r, response, |st.order|);
  }

  /**
   The two reads of a hash, all commands answered, build the same map if and
   only if no value contains a NUL.
   */
  lemma ReadsAgree(st: Store, response: Dict)
    requires Valid(st) && NamesAreWords(st)
    ensures var n, reply := |st.order|, Array(Texts(Listing(st, |st.order|)));
      Filled(st.order, st.fields, response, Always, n) == PairAll(reply, |reply.elements|, response).params
      <==> forall f :: f in st.fields ==> NUL !in st.fields[f]
  {
    forall i | 0 <= i < |st.order| ensures NUL !in st.order[i] {
      assert Word(st.order[i]);
    }
    FilledAll(st.order, st.fields, response, Always);
    HGetAllDecodes(st, response);
    PairedAll(st.order, st.fields, response);
    CutAgrees(st.fields, response);
  }

  lemma CutAgrees(fields: Dict, response: Dict)
    ensures response + fields == response + Cut(fields) <==> forall f :: f in fields ==> NUL !in fields[f]
  {
    forall f | f in fields
      ensures (response + fields)[f] == (response + Cut(fields))[f] <==> NUL !in fields[f]
    {
      CStrKeeps(fields[f]);
    }
    if forall f :: f in fields ==> NUL !in fields[f] {
      assert fields == Cut(fields);
    }
  }

  // -------------------------------------------- the operations on the pool

  /** `HGetAllByKeys` gets its own connection, the names' connection, and the names. */
  predicate ByKeysSucceeds(p: RedisPool.Pool, connects: bool, connectsAgain: bool, namesAnswered: bool) {
    && RedisPool.Borrowed(p, connects).Some?
    && RedisPool.Borrowed(RedisPool.AfterBorrow(p, connects), connectsAgain).Some?
    && namesAnswered
  }

  /** The pool after `HGetAllByKeys`: the connection is forgotten if the names do not come. */
  function ByKeysPool(p: RedisPool.Pool, connects: bool, connectsAgain: bool, namesAnswered: bool): RedisPool.Pool {
    var conn, q := RedisPool.Borrowed(p, connects), RedisPool.AfterBorrow(p, connects);
    if conn.None? then q
    else
      var q' := RedisPool.Bracket(q, connectsAgain);
      if ByKeysSucceeds(p, connects, connectsAgain, namesAnswered) then RedisPool.Free(q', conn)
      else RedisPool.Next(q', RedisPool.DropStep(conn.value))
  }

  /** It leaves nothing lent, and loses a connection exactly if it got one and then not the names. */
  lemma ByKeysConserves(p: RedisPool.Pool, connects: bool, connectsAgain: bool, namesAnswered: bool)
    requires RedisPool.Conserved(p) && RedisPool.Lends(p) && RedisPool.Lends(RedisPool.AfterBorrow(p, connects))
    ensures var q := ByKeysPool(p, connects, connectsAgain, namesAnswered);
      && RedisPool.Conserved(q) && q.lent == p.lent
      && (q.dropped == p.dropped <==>
            RedisPool.Borrowed(p, connects).None? || ByKeysSucceeds(p, connects, connectsAgain, namesAnswered))
  {
    var conn, q := RedisPool.Borrowed(p, connects), RedisPool.AfterBorrow(p, connects);
    RedisPool.BorrowConserves(p, connects);
    RedisPool.BracketConserves(q, connectsAgain);
    var q' := RedisPool.Bracket(q, connectsAgain);
    if conn.Some? {
      RedisPool.StepConserves(q', RedisPool.FreeStep(conn));
      RedisPool.StepConserves(q', RedisPool.DropStep(conn.value));
    }
  }

  /**
   The client. Each operation borrows a connection and gives it back; `connects`
   is whether a new one can be made, `answered` whether a command is.
   */
  class DBIORedis {
    const pool: RedisPool.RedisPool

    constructor (pool: RedisPool.RedisPool)
      ensures this.pool == pool
    {
      this.pool := pool;
    }

    method HKeys(st: Store, key: string, response0: seq<string>, connects: bool, answered: bool)
      returns (ok: bool, response: seq<string>)
      requires Valid(st) && key == st.key
      requires RedisPool.Conserved(pool.View()) && RedisPool.Lends(pool.View())
      modifies pool
      ensures ok <==> RedisPool.Borrowed(old(pool.View()), connects).Some? && answered
      ensures response == if ok then response0 + CutTexts(st.order) else response0
      ensures pool.View() == RedisPool.Bracket(old(pool.View()), connects)
    {
      var conn := pool.Borrow(connects);
      if conn.None? {
        RedisPool.BorrowConserves(old(pool.View()), connects);
        return false, response0;
      }
      AnswerKeys(st);
      HKeysDecodes(st);
      var reply := Exchange(st, "hkeys" + " " + key + [NUL], answered);
      ok, response := ExecuteVector(reply, response0);
      pool.FreeRedisConn(conn);
    }

    /** The loop of `HGetAllByKeys`: one `hget` per name; every value that arrives is in full. */
    method GetEach(st: Store, key: string, akeys: seq<string>, response0: Dict,
                   answered: nat -> bool, printed: int -> string)
      returns (response: Dict)
      requires Valid(st) && NamesAreWords(st) && key == st.key && akeys == st.order
      ensures response == Filled(st.order, st.fields, response0, answered, |st.order|)
    {
      response := response0;
      for i := 0 to |akeys|
        invariant response == Filled(st.order, st.fields, response0, answered, i)
      {
        assert Word(akeys[i]);
        AnswerField(st, akeys[i]);
        var reply := Exchange(st, "hget" + " " + key + " " + akeys[i], answered(i));
        var got, res := ExecuteResponse(reply, "", printed);
        if got {
          response := response[akeys[i] := res];
        }
      }
    }

    /**
     One `hget` per name. While it asks for the names it holds a connection of
     its own, and if that fails it forgets to give this one back.
     */
    method HGetAllByKeys(st: Store, key: string, response0: Dict, connects: bool, connectsAgain: bool,
                         namesAnswered: bool, answered: nat -> bool, printed: int -> string)
      returns (ok: bool, response: Dict)
      requires Valid(st) && NamesAreWords(st) && key == st.key
      requires RedisPool.Conserved(pool.View()) && RedisPool.Lends(pool.View())
      requires RedisPool.Lends(RedisPool.AfterBorrow(pool.View(), connects))
      modifies pool
      ensures pool.View() == ByKeysPool(old(pool.View()), connects, connectsAgain, namesAnswered)
      ensures ok <==> ByKeysSucceeds(old(pool.View()), connects, connectsAgain, namesAnswered)
      ensures response == if ok then Filled(st.order, st.fields, response0, answered, |st.order|) else response0
    {
      response := response0;
      RedisPool.BorrowConserves(pool.View(), connects);
      var conn := pool.Borrow(connects);
      if conn.None? {
        return false, response;
      }
      var akeys: seq<string>;
      ok, akeys := HKeys(st, key, [], connectsAgain, namesAnswered);
      if !ok {
        pool.Forget(conn.value);
        return false, response;
      }
      WordsUncut(st);
      response := GetEach(st, key, akeys, response0, answered, printed);
      pool.FreeRedisConn(conn);
    }

    /** One `hgetall`: names and values paired off, values cut at a NUL. */
    method HGetAll(st: Store, key: string, response0: Dict, connects: bool, answered: bool)
      returns (ok: bool, response: Dict)
      requires Valid(st) && key == st.key
      requires RedisPool.Conserved(pool.View()) && RedisPool.Lends(pool.View())
      modifies pool
      ensures ok <==> RedisPool.Borrowed(old(pool.View()), connects).Some? && answered
      ensures response == if ok then Paired(st.order, st.fields, response0, |st.order|) else response0
      ensures pool.View() == RedisPool.Bracket(old(pool.View()), connects)
    {
      var conn := pool.Borrow(connects);
      if conn.None? {
        RedisPool.BorrowConserves(old(pool.View()), connects);
        return false, response0;
      }
      AnswerAll(st);
      HGetAllDecodes(st, response0);
      var reply := Exchange(st, "hgetall" + " " + key + [NUL], answered);
      ok, response := ExecuteMap(reply, response0);
      pool.FreeRedisConn(conn);
    }
  }
}
