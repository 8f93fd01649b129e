/** The token tree in memory and the matching loops over it. */
module Scanner {
  import opened Bytes
  import opened Trie

  const WIDTH: nat := 256

  /** One node: its flag word, of which bit 0 marks the end of a word, and its children by byte. */
  class Token {
    var flag: nat
    const tokens: array<Token?>

    constructor (flag: nat)
      ensures this.flag == flag && fresh(tokens) && tokens.Length == WIDTH
      ensures forall c :: 0 <= c < WIDTH ==> tokens[c] == null
    {
      this.flag := flag;
      tokens := new Token?[WIDTH](_ => null);
    }

    predicate Stop()
      reads this
    {
      flag % 2 == 1
    }
  }

  /** The nodes reachable from the root, by path, are those of the dictionary d. */
  ghost predicate Represents(root: Token, nodes: map<Path, Token>, d: Tree)
    reads nodes.Values, set n | n in nodes.Values :: n.tokens
  {
    && WellFormed(d)
    && nodes.Keys == d.paths
    && nodes[[]] == root
    && (forall p :: p in nodes ==> nodes[p].tokens.Length == WIDTH)
    && (forall p :: p in nodes && p != [] ==> (nodes[p].Stop() <==> p in d.stops))
    && (forall p, c: Byte :: p in nodes ==>
          nodes[p].tokens[c] == if p + [c] in nodes then nodes[p + [c]] else null)
  }

  /** The text from s on is terminated by a zero byte. */
  predicate CString(text: seq<Byte>, s: nat) {
    exists z :: s <= z < |text| && text[z] == 0
  }

  /** The first position from s on that holds a zero byte or a delimiter. */
  function Extent(text: seq<Byte>, s: nat, delims: set<Byte>): (e: nat)
    requires CString(text, s)
    ensures s <= e < |text| && (text[e] == 0 || text[e] in delims)
    ensures Clean(text[s..e], delims)
    decreases |text| - s
  {
    if text[s] == 0 || text[s] in delims then s
    else
      assert CString(text, s + 1) by {
        var z :| s <= z < |text| && text[z] == 0;
      }
      var e := Extent(text, s + 1, delims);
      assert text[s..e] == [text[s]] + text[s + 1..e];
      e
  }

  /** The text that a scan with these delimiters looks at. */
  function Scanned(text: seq<Byte>, s: nat, delims: set<Byte>): seq<Byte>
    requires CString(text, s)
  {
    text[..Extent(text, s, delims)]
  }

  /** A cursor and a token are what a scan's answer says. */
  ghost predicate Reports(nodes: map<Path, Token>, t: seq<Byte>, r: Answer, cursor: nat, out: Token?) {
    match r
    case NotFound(q) => cursor == q && out == null
    case Found(p, e, q) =>
      cursor == q && p <= e <= |t| && t[p..e] in nodes && out == nodes[t[p..e]]
  }

  // ----------------------------------------------------- inside the loops

  /**
   The walk that started at p has reached i at node `iter`; `out` is the
   longest word on it; and the whole scan's answer is that of a scan from p.
   */
  ghost predicate Scanning(nodes: map<Path, Token>, d: Tree, t: seq<Byte>, s: nat,
                           p: nat, i: nat, iter: Token, out: Token?) {
    && s <= p <= i <= |t|
    && t[p..i] in nodes && iter == nodes[t[p..i]]
    && Scan(d, t, s) == Scan(d, t, p)
    && (var w := LastStop(d, t, p, i);
        if w > p then t[p..w] in nodes && out == nodes[t[p..w]] else out == null)
  }

  /** The child of a node under a byte is the node of the longer path, if that is one. */
  lemma Child(root: Token, nodes: map<Path, Token>, d: Tree, t: seq<Byte>, p: nat, i: nat)
    requires Represents(root, nodes, d) && p <= i < |t| && t[p..i] in nodes
    ensures nodes[t[p..i]].tokens.Length == WIDTH
    ensures nodes[t[p..i]].tokens[t[i]] == if t[p..i + 1] in nodes then nodes[t[p..i + 1]] else null
    ensures t[p..i + 1] in nodes ==> (nodes[t[p..i + 1]].Stop() <==> t[p..i + 1] in d.stops)
  {
    assert t[p..i + 1] == t[p..i] + [t[i]];
  }

  lemma Start(root: Token, nodes: map<Path, Token>, d: Tree, t: seq<Byte>, s: nat)
    requires Represents(root, nodes, d) && s <= |t|
    ensures Scanning(nodes, d, t, s, s, s, root, null)
  {
    assert t[s..s] == [];
  }

  lemma Advance(root: Token, nodes: map<Path, Token>, d: Tree, t: seq<Byte>, s: nat,
                p: nat, i: nat, iter: Token, out: Token?, next: Token)
    requires Represents(root, nodes, d)
    requires Scanning(nodes, d, t, s, p, i, iter, out) && i < |t| && next == iter.tokens[t[i]]
    ensures Scanning(nodes, d, t, s, p, i + 1, next, if next.Stop() then next else out)
  {
    Child(root, nodes, d, t, p, i);
  }

  /** A walk that cannot go on is maximal, and its end decides how the scan goes on. */
  lemma WalkDecides(d: Tree, t: seq<Byte>, p: nat, i: nat)
    requires WellFormed(d) && p <= i <= |t| && t[p..i] in d.paths && (i < |t| ==> t[p..i + 1] !in d.paths)
    ensures var w := LastStop(d, t, p, i);
      Scan(d, t, p) == if w > p then Found(p, w, i) else Scan(d, t, i)
  {
    WalkIs(d, t, p, p, i);
  }

  /** No way on from here: with a word the scan is over, without one it resumes here from the root. */
  lemma Stuck(root: Token, nodes: map<Path, Token>, d: Tree, t: seq<Byte>, s: nat,
              p: nat, i: nat, iter: Token, out: Token?)
    requires Represents(root, nodes, d) && Scanning(nodes, d, t, s, p, i, iter, out)
    requires i < |t| ==> iter.tokens[t[i]] == null
    ensures if out == null then Scanning(nodes, d, t, s, i, i, root, null)
            else Reports(nodes, t, Scan(d, t, s), i, out)
  {
    if i < |t| {
      Child(root, nodes, d, t, p, i);
    }
    WalkDecides(d, t, p, i);
    assert t[i..i] == [];
  }

  /** A byte that starts no path at the root is skipped. */
  lemma Skip(root: Token, nodes: map<Path, Token>, d: Tree, t: seq<Byte>, s: nat, i: nat)
    requires Represents(root, nodes, d) && Scanning(nodes, d, t, s, i, i, root, null)
    requires i < |t| && root.tokens[t[i]] == null
    ensures Scanning(nodes, d, t, s, i + 1, i + 1, root, null)
  {
    assert t[i..i] == [] && t[i + 1..i + 1] == [] && t[i..i + 1] == [] + [t[i]];
  }

  /** At the end of the text the answer is known. */
  lemma AtEnd(root: Token, nodes: map<Path, Token>, d: Tree, t: seq<Byte>, s: nat,
              p: nat, i: nat, iter: Token, out: Token?)
    requires Represents(root, nodes, d) && Scanning(nodes, d, t, s, p, i, iter, out) && i == |t|
    ensures Reports(nodes, t, Scan(d, t, s), i, out)
  {
    Stuck(root, nodes, d, t, s, p, i, iter, out);
  }

  // ------------------------------------------------------ the three loops

  /** What the body of each loop does with the byte c at the cursor, once it is known not to end the text. */
  method Consume(root: Token, ghost nodes: map<Path, Token>, ghost d: Tree, ghost t: seq<Byte>, ghost s: nat,
                 ghost p: nat, i: nat, iter: Token, out: Token?, c: Byte)
    returns (stop: bool, ghost p': nat, i': nat, iter': Token, out': Token?)
    requires Represents(root, nodes, d) && Scanning(nodes, d, t, s, p, i, iter, out)
    requires i < |t| && c == t[i]
    ensures if stop then i' == i && Reports(nodes, t, Scan(d, t, s), i', out')
            else i' == i + 1 && Scanning(nodes, d, t, s, p', i', iter', out')
  {
    stop, p', i', iter', out' := false, p, i, iter, out;
    var tmp := iter'.tokens[c];
    if tmp == null {
      Stuck(root, nodes, d, t, s, p, i, iter, out);
      if out' != null {
        stop := true;
        return;
      }
      iter', p' := root, i;
      tmp := iter'.tokens[c];
      if tmp == null {
        Skip(root, nodes, d, t, s, i);
        i', p' := i' + 1, i' + 1;
        return;
      }
    }
    Advance(root, nodes, d, t, s, p', i', iter', out', tmp);
    if tmp.Stop() {
      out' := tmp;
    }
    iter' := tmp;
    i' := i' + 1;
  }

  /** A position before the end of the scanned text holds the text's byte, neither zero nor a delimiter. */
  lemma Inside(text: seq<Byte>, s: nat, delims: set<Byte>, i: nat)
    requires CString(text, s) && s <= i <= Extent(text, s, delims)
    ensures i < Extent(text, s, delims) <==> text[i] != 0 && text[i] !in delims
    ensures i < Extent(text, s, delims) ==> Scanned(text, s, delims)[i] == text[i]
  {
    var e := Extent(text, s, delims);
    if i < e {
      assert text[s..e][i - s] == text[i];
      assert text[i] in text[s..e];
    }
  }

  /** The loop with neither delimiters nor table. */
  method MatchPlain(root: Token, ghost nodes: map<Path, Token>, ghost d: Tree, text: seq<Byte>, s: nat)
    returns (i: nat, out: Token?)
    requires Represents(root, nodes, d) && CString(text, s)
    ensures Reports(nodes, Scanned(text, s, {}), Scan(d, Scanned(text, s, {}), s), i, out)
  {
    ghost var t, p: nat := Scanned(text, s, {}), s;
    var iter: Token, stop := root, false;
    i, out := s, null;
    Start(root, nodes, d, t, s);
    while text[i] != 0
      invariant i <= |t| && Scanning(nodes, d, t, s, p, i, iter, out)
      decreases |t| - i
    {
      Inside(text, s, {}, i);
      stop, p, i, iter, out := Consume(root, nodes, d, t, s, p, i, iter, out, text[i]);
      if stop {
        return;
      }
    }
    Inside(text, s, {}, i);
    AtEnd(root, nodes, d, t, s, p, i, iter, out);
  }

  /** The bytes of a delimiter string before its terminator. */
  function DelimSet(delim: seq<Byte>): set<Byte>
    requires CString(delim, 0)
  {
    set k | 0 <= k < Extent(delim, 0, {}) :: delim[k]
  }

  /** The inner loop over the delimiter string. */
  method IsDelim(delim: seq<Byte>, c: Byte) returns (found: bool)
    requires CString(delim, 0)
    ensures found <==> c in DelimSet(delim)
  {
    var k := 0;
    Inside(delim, 0, {}, 0);
    while delim[k] != 0
      invariant k <= Extent(delim, 0, {})
      invariant forall m :: 0 <= m < k ==> delim[m] != c
      decreases Extent(delim, 0, {}) - k
    {
      Inside(delim, 0, {}, k);
      if c == delim[k] {
        return true;
      }
      k := k + 1;
    }
    Inside(delim, 0, {}, k);
    return false;
  }

  /** The loop with a delimiter string, which it searches at every byte. */
  method MatchDelim(root: Token, ghost nodes: map<Path, Token>, ghost d: Tree, text: seq<Byte>, s: nat,
                    delim: seq<Byte>)
    returns (i: nat, out: Token?)
    requires Represents(root, nodes, d) && CString(text, s) && CString(delim, 0)
    ensures var delims := DelimSet(delim);
      Reports(nodes, Scanned(text, s, delims), Scan(d, Scanned(text, s, delims), s), i, out)
  {
    ghost var delims := DelimSet(delim);
    ghost var t, p: nat := Scanned(text, s, delims), s;
    var iter: Token, stop := root, false;
    i, out := s, null;
    Start(root, nodes, d, t, s);
    while text[i] != 0
      invariant i <= |t| && Scanning(nodes, d, t, s, p, i, iter, out)
      decreases |t| - i
    {
      Inside(text, s, delims, i);
      var atDelim := IsDelim(delim, text[i]);
      if atDelim {
        break;
      }
      stop, p, i, iter, out := Consume(root, nodes, d, t, s, p, i, iter, out, text[i]);
      if stop {
        return;
      }
    }
    Inside(text, s, delims, i);
    AtEnd(root, nodes, d, t, s, p, i, iter, out);
  }

  /** The bytes a delimiter table marks. */
  function TableSet(table: seq<Byte>): set<Byte>
    requires |table| == WIDTH
  {
    set c: Byte | table[c] != 0
  }

  /** The loop with a delimiter table, indexed by byte. */
  method MatchTable(root: Token, ghost nodes: map<Path, Token>, ghost d: Tree, text: seq<Byte>, s: nat,
                    table: seq<Byte>)
    returns (i: nat, out: Token?)
    requires Represents(root, nodes, d) && CString(text, s) && |table| == WIDTH
    ensures var delims := TableSet(table);
      Reports(nodes, Scanned(text, s, delims), Scan(d, Scanned(text, s, delims), s), i, out)
  {
    ghost var delims := TableSet(table);
    ghost var t, p: nat := Scanned(text, s, delims), s;
    var iter: Token, stop := root, false;
    i, out := s, null;
    Start(root, nodes, d, t, s);
    while text[i] != 0
      invariant i <= |t| && Scanning(nodes, d, t, s, p, i, iter, out)
      decreases |t| - i
    {
      Inside(text, s, delims, i);
      if table[text[i]] != 0 {
        break;
      }
      stop, p, i, iter, out := Consume(root, nodes, d, t, s, p, i, iter, out, text[i]);
      if stop {
        return;
      }
    }
    Inside(text, s, delims, i);
    AtEnd(root, nodes, d, t, s, p, i, iter, out);
  }

  /** The macro's two optional arguments; a delimiter string takes precedence over a table. */
  datatype Delimiters = Text(delim: seq<Byte>) | Table(table: seq<Byte>) | Neither

  ghost predicate ValidDelimiters(ds: Delimiters) {
    match ds
    case Text(delim) => CString(delim, 0)
    case Table(table) => |table| == WIDTH
    case Neither => true
  }

  ghost function DelimitersOf(ds: Delimiters): set<Byte>
    requires ValidDelimiters(ds)
  {
    match ds
    case Text(delim) => DelimSet(delim)
    case Table(table) => TableSet(table)
    case Neither => {}
  }

  /**
   A table that marks the bytes of a delimiter string, and only those, gives
   the same answer; an empty string is like none.
   */
  lemma VariantsAgree(d: Tree, text: seq<Byte>, s: nat, delim: seq<Byte>, table: seq<Byte>)
    requires CString(text, s) && CString(delim, 0) && |table| == WIDTH
    ensures (forall c: Byte :: table[c] != 0 <==> exists k :: 0 <= k < Extent(delim, 0, {}) && delim[k] == c) ==>
      Scan(d, Scanned(text, s, DelimSet(delim)), s) == Scan(d, Scanned(text, s, TableSet(table)), s)
    ensures delim[0] == 0 ==>
      Scan(d, Scanned(text, s, DelimSet(delim)), s) == Scan(d, Scanned(text, s, {}), s)
  {
    if forall c: Byte :: table[c] != 0 <==> exists k :: 0 <= k < Extent(delim, 0, {}) && delim[k] == c {
      assert DelimSet(delim) == TableSet(table);
    }
    if delim[0] == 0 {
      assert DelimSet(delim) == {};
    }
  }

  /** For a restartable dictionary the macro's answer is the leftmost word before the first delimiter, taken longest. */
  lemma MatchIsLeftmost(d: Tree, text: seq<Byte>, s: nat, delims: set<Byte>)
    requires WellFormed(d) && Restartable(d, delims) && CString(text, s)
    ensures var t := Scanned(text, s, delims);
      Leftmost(d, t, s, Scan(d, t, s)) && Sound(d, t, s, Scan(d, t, s))
  {
    var t := Scanned(text, s, delims);
    assert t[s..] == text[s..|t|];
    RestartableSuffices(d, delims, t, s);
    ScanSound(d, t, s);
  }

  /** `ACL_TOKEN_TREE_MATCH` */
  method Match(root: Token, ghost nodes: map<Path, Token>, ghost d: Tree, text: seq<Byte>, s: nat, ds: Delimiters)
    returns (i: nat, out: Token?)
    requires Represents(root, nodes, d) && CString(text, s) && ValidDelimiters(ds)
    ensures Reports(nodes, Scanned(text, s, DelimitersOf(ds)), Scan(d, Scanned(text, s, DelimitersOf(ds)), s), i, out)
  {
    match ds
    case Text(delim) => i, out := MatchDelim(root, nodes, d, text, s, delim);
    case Table(table) => i, out := MatchTable(root, nodes, d, text, s, table);
    case Neither => i, out := MatchPlain(root, nodes, d, text, s);
  }

  /** `ACL_TOKEN_TREE_WORD_MATCH`: the token of the whole word, if it is in the dictionary. */
  method WordMatch(root: Token, ghost nodes: map<Path, Token>, ghost d: Tree, word: seq<Byte>)
    returns (out: Token?)
    requires Represents(root, nodes, d) && CString(word, 0)
    ensures var w := Scanned(word, 0, {});
      if w in d.stops then w in nodes && out == nodes[w] else out == null
  {
    ghost var w := Scanned(word, 0, {});
    var i, iter: Token, token: Token? := 0, root, null;
    assert w[..0] == [];
    while word[i] != 0
      invariant i <= |w| && w[..i] in nodes && iter == nodes[w[..i]]
      invariant token == if i == 0 then null else iter
      decreases |w| - i
    {
      Inside(word, 0, {}, i);
      token := iter.tokens[word[i]];
      assert w[..i + 1] == w[..i] + [w[i]];
      if token == null {
        if w in d.paths {
          assert w == w[0..|w|] && w[0..i + 1] == w[..i + 1];
          PathPrefix(d, w, 0, |w|, i + 1);
        }
        return null;
      }
      iter := token;
      i := i + 1;
    }
    Inside(word, 0, {}, i);
    assert w[..i] == w;
    if token != null && token.Stop() {
      out := token;
    } else {
      out := null;
    }
  }
}
