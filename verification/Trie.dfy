/**
 What the token scanner computes, on a dictionary given by the paths of its
 trie, and when that is the leftmost word of the text.
 */
module Trie {
  import opened Bytes

  type Path = seq<Byte>

  /** The paths from the root to the nodes, and those (other than the root) whose node carries the STOP flag. */
  datatype Tree = Tree(paths: set<Path>, stops: set<Path>)

  ghost predicate WellFormed(d: Tree) {
    && [] in d.paths
    && (forall p :: p in d.paths && p != [] ==> p[..|p| - 1] in d.paths)
    && d.stops <= d.paths && [] !in d.stops
  }

  /** The answer of a scan: nothing, or the word text[start..end]; `cursor` is where the scan stops. */
  datatype Answer = NotFound(cursor: nat) | Found(start: nat, end: nat, cursor: nat)

  /** Where the walk down the trie that started at p and has reached e ends. */
  function Walk(d: Tree, t: seq<Byte>, p: nat, e: nat): (r: nat)
    requires p <= e <= |t|
    ensures e <= r <= |t|
    decreases |t| - e
  {
    if e < |t| && t[p..e + 1] in d.paths then Walk(d, t, p, e + 1) else e
  }

  /** The end of the longest word that starts at p and ends by e; p if there is none. */
  function LastStop(d: Tree, t: seq<Byte>, p: nat, e: nat): (r: nat)
    requires p <= e <= |t|
    ensures p <= r <= e
    decreases e
  {
    if e == p then p
    else if t[p..e] in d.stops then e
    else LastStop(d, t, p, e - 1)
  }

  /**
   The scan in terms of whole walks: take the maximal walk from p; report the
   longest word on it, or else continue where it ended, without going back.
   */
  function Scan(d: Tree, t: seq<Byte>, p: nat): Answer
    requires p <= |t|
    decreases |t| - p
  {
    if p == |t| then NotFound(p)
    else
      var e := Walk(d, t, p, p);
      if e == p then Scan(d, t, p + 1)
      else
        var w := LastStop(d, t, p, e);
        if w > p then Found(p, w, e) else Scan(d, t, e)
  }

  /** Some word starts at p. */
  ghost predicate WordAt(d: Tree, t: seq<Byte>, p: nat) {
    exists e :: p < e <= |t| && t[p..e] in d.stops
  }

  // ------------------------------------------------------------------ walks

  lemma {:induction false} LastStopIsLast(d: Tree, t: seq<Byte>, p: nat, e: nat)
    requires p <= e <= |t|
    ensures var r := LastStop(d, t, p, e);
      && (r > p ==> t[p..r] in d.stops)
      && forall k :: r < k <= e ==> t[p..k] !in d.stops
    decreases e
  {
    if e > p && t[p..e] !in d.stops {
      LastStopIsLast(d, t, p, e - 1);
    }
  }

  lemma {:induction false} PathPrefix(d: Tree, t: seq<Byte>, p: nat, e: nat, k: nat)
    requires WellFormed(d) && p <= k <= e <= |t| && t[p..e] in d.paths
    ensures t[p..k] in d.paths
    decreases e
  {
    if k < e {
      assert t[p..e][..e - p - 1] == t[p..e - 1];
      PathPrefix(d, t, p, e - 1, k);
    }
  }

  /** A walk that is on a path and cannot be extended is the maximal one. */
  lemma {:induction false} WalkIs(d: Tree, t: seq<Byte>, p: nat, k: nat, e: nat)
    requires WellFormed(d) && p <= k <= e <= |t|
    requires t[p..e] in d.paths && (e < |t| ==> t[p..e + 1] !in d.paths)
    ensures Walk(d, t, p, k) == e
    decreases e - k
  {
    if k < e {
      PathPrefix(d, t, p, e, k + 1);
      WalkIs(d, t, p, k + 1, e);
    }
  }

  /** The maximal walk is a path, and every path at p is within it. */
  lemma {:induction false} WalkIsMaximal(d: Tree, t: seq<Byte>, p: nat, k: nat)
    requires WellFormed(d) && p <= k <= |t| && t[p..k] in d.paths
    ensures var e := Walk(d, t, p, k);
      t[p..e] in d.paths && forall i :: e < i <= |t| ==> t[p..i] !in d.paths
    decreases |t| - k
  {
    if k < |t| && t[p..k + 1] in d.paths {
      WalkIsMaximal(d, t, p, k + 1);
    } else {
      forall i | k < i <= |t| ensures t[p..i] !in d.paths {
        if t[p..i] in d.paths {
          PathPrefix(d, t, p, i, k + 1);
        }
      }
    }
  }

  /** From the start of a walk: a word starts at p exactly if the maximal walk passes one. */
  lemma WalkMeetsWords(d: Tree, t: seq<Byte>, p: nat)
    requires WellFormed(d) && p <= |t|
    ensures var e := Walk(d, t, p, p);
      && t[p..e] in d.paths
      && (e < |t| ==> t[p..e + 1] !in d.paths)
      && (WordAt(d, t, p) <==> LastStop(d, t, p, e) > p)
      && forall k :: LastStop(d, t, p, e) < k <= |t| ==> t[p..k] !in d.stops
  {
    assert t[p..p] == [];
    WalkIsMaximal(d, t, p, p);
    LastStopIsLast(d, t, p, Walk(d, t, p, p));
  }

  // -------------------------------------------------------------- soundness

  /**
   What a scan from s reports is real: a word at `start` is the longest one
   starting there, and the cursor is at the end of the maximal walk from
   there; if nothing is reported the cursor is at the end of the text.
   */
  ghost predicate Sound(d: Tree, t: seq<Byte>, s: nat, r: Answer) {
    match r
    case NotFound(q) => q == |t|
    case Found(p, e, q) =>
      && s <= p < e <= q <= |t|
      && t[p..e] in d.stops
      && (forall k :: e < k <= |t| ==> t[p..k] !in d.stops)
      && t[p..q] in d.paths
      && (q < |t| ==> t[p..q + 1] !in d.paths)
  }

  lemma {:induction false} ScanSound(d: Tree, t: seq<Byte>, s: nat)
    requires WellFormed(d) && s <= |t|
    ensures Sound(d, t, s, Scan(d, t, s))
    decreases |t| - s
  {
    if s < |t| {
      WalkMeetsWords(d, t, s);
      var e := Walk(d, t, s, s);
      if e == s {
        ScanSound(d, t, s + 1);
      } else if LastStop(d, t, s, e) == s {
        ScanSound(d, t, e);
      } else {
        LastStopIsLast(d, t, s, e);
      }
    }
  }

  // ----------------------------------------------------------- completeness

  /** The answer is the leftmost word from s on; no answer means there is no word. */
  ghost predicate Leftmost(d: Tree, t: seq<Byte>, s: nat, r: Answer) {
    match r
    case NotFound(_) => forall p: nat :: s <= p < |t| ==> !WordAt(d, t, p)
    case Found(p, _, _) => WordAt(d, t, p) && forall k: nat :: s <= k < p ==> !WordAt(d, t, k)
  }

  predicate Clean(t: seq<Byte>, delims: set<Byte>) {
    forall c :: c in t ==> c != 0 && c !in delims
  }

  lemma CleanTail(t: seq<Byte>, delims: set<Byte>, s: nat, k: nat)
    requires s <= k <= |t| && Clean(t[s..], delims)
    ensures Clean(t[k..], delims)
  {
    forall c | c in t[k..] ensures c in t[s..] {
      var i :| 0 <= i < |t[k..]| && t[k..][i] == c;
      assert t[s..][k - s + i] == c;
    }
  }

  lemma CleanPart(t: seq<Byte>, delims: set<Byte>, s: nat, end: nat)
    requires s <= end <= |t| && Clean(t[s..], delims)
    ensures Clean(t[s..end], delims)
  {
    forall c | c in t[s..end] ensures c in t[s..] {
      var i :| 0 <= i < |t[s..end]| && t[s..end][i] == c;
      assert t[s..][i] == c;
    }
  }

  /**
   The path x can be followed into the word w, and no part of xw from its start
   is a word: a question about the two sets alone.
   */
  ghost predicate RunsPast(d: Tree, x: Path, w: Path) {
    && w != [] && x + w[..1] in d.paths
    && forall k :: 0 < k <= |x + w| ==> (x + w)[..k] !in d.stops
  }

  /**
   A walk that runs past the start of a word without having met one loses it,
   for the scanner never goes back. A dictionary is restartable if no path x
   and word w make that happen.
   */
  ghost predicate Restartable(d: Tree, delims: set<Byte>) {
    forall x, w :: x in d.paths && x != [] && w in d.stops && Clean(x + w, delims) ==> !RunsPast(d, x, w)
  }

  /** A walk over a part of the text is the walk over the text, cut off where the part ends. */
  lemma WalkCut(d: Tree, t: seq<Byte>, s: nat, end: nat)
    requires WellFormed(d) && s <= end <= |t|
    ensures var e := Walk(d, t, s, s);
      var m := if e < end then e - s else end - s;
      && Walk(d, t[s..end], 0, 0) == m
      && (LastStop(d, t, s, e) == s ==> LastStop(d, t[s..end], 0, m) == 0)
  {
    var u, e := t[s..end], Walk(d, t, s, s);
    var m := if e < end then e - s else end - s;
    WalkMeetsWords(d, t, s);
    PathPrefix(d, t, s, e, s + m);
    assert forall k :: 0 <= k <= |u| ==> u[0..k] == t[s..s + k];
    WalkIs(d, u, 0, 0, m);
    if LastStop(d, t, s, e) == s {
      LastStopIsLast(d, u, 0, m);
    }
  }

  /** That is when the first walk over xw gets past x and has met no word. */
  lemma RunsPastIff(d: Tree, x: Path, w: Path)
    requires WellFormed(d) && w != []
    ensures var e := Walk(d, x + w, 0, 0);
      RunsPast(d, x, w) <==> e > |x| && LastStop(d, x + w, 0, e) == 0
  {
    var t := x + w;
    var e := Walk(d, t, 0, 0);
    assert t[0..0] == [] && t[0..|x| + 1] == x + w[..1];
    assert forall k :: 0 <= k <= |t| ==> t[0..k] == t[..k];
    WalkIsMaximal(d, t, 0, 0);
    LastStopIsLast(d, t, 0, e);
    if e > |x| {
      PathPrefix(d, t, 0, e, |x| + 1);
    }
  }

  /** A word that starts inside a walk that met no word is run past. */
  lemma PassedBy(d: Tree, t: seq<Byte>, s: nat, p: nat, end: nat)
    requires WellFormed(d) && s < p < end <= |t|
    requires p < Walk(d, t, s, s) && LastStop(d, t, s, Walk(d, t, s, s)) == s
    ensures t[s..p] in d.paths && RunsPast(d, t[s..p], t[p..end])
  {
    assert t[s..p] + t[p..end] == t[s..end];
    WalkCut(d, t, s, end);
    RunsPastIff(d, t[s..p], t[p..end]);
    WalkMeetsWords(d, t, s);
    PathPrefix(d, t, s, Walk(d, t, s, s), p);
  }

  /** Inside a walk that met no word, no word starts. */
  lemma NothingSkipped(d: Tree, delims: set<Byte>, t: seq<Byte>, s: nat, p: nat)
    requires WellFormed(d) && Restartable(d, delims) && s <= |t| && Clean(t[s..], delims)
    requires s < p < Walk(d, t, s, s) && LastStop(d, t, s, Walk(d, t, s, s)) == s
    ensures !WordAt(d, t, p)
  {
    if WordAt(d, t, p) {
      var end :| p < end <= |t| && t[p..end] in d.stops;
      CleanPart(t, delims, s, end);
      assert t[s..p] + t[p..end] == t[s..end];
      PassedBy(d, t, s, p, end);
    }
  }

  lemma {:induction false} RestartableSuffices(d: Tree, delims: set<Byte>, t: seq<Byte>, s: nat)
    requires WellFormed(d) && Restartable(d, delims) && s <= |t| && Clean(t[s..], delims)
    ensures Leftmost(d, t, s, Scan(d, t, s))
    decreases |t| - s
  {
    if s < |t| {
      WalkMeetsWords(d, t, s);
      var e := Walk(d, t, s, s);
      if e == s {
        CleanTail(t, delims, s, s + 1);
        RestartableSuffices(d, delims, t, s + 1);
      } else if LastStop(d, t, s, e) == s {
        forall p | s < p < e ensures !WordAt(d, t, p) {
          NothingSkipped(d, delims, t, s, p);
        }
        CleanTail(t, delims, s, e);
        RestartableSuffices(d, delims, t, e);
      }
    }
  }

  /** The witness text: x followed by the word the scanner runs past. */
  lemma RestartableNeeded(d: Tree, x: Path, w: Path)
    requires WellFormed(d) && x != [] && w in d.stops && RunsPast(d, x, w)
    ensures !Leftmost(d, x + w, 0, Scan(d, x + w, 0))
  {
    var t := x + w;
    assert t[|x|..|t|] == w;
    RunsPastIff(d, x, w);
    assert WordAt(d, t, |x|);
    ScanSound(d, t, Walk(d, t, 0, 0));
  }

  /**
   The scanner finds the leftmost word of every text if and only if the
   dictionary is restartable, a finite question about its paths and words.
   */
  lemma ScanIsLeftmostIff(d: Tree, delims: set<Byte>)
    requires WellFormed(d)
    ensures Restartable(d, delims)
       <==> forall t, s: nat :: s <= |t| && Clean(t[s..], delims) ==> Leftmost(d, t, s, Scan(d, t, s))
  {
    if Restartable(d, delims) {
      forall t, s: nat | s <= |t| && Clean(t[s..], delims) ensures Leftmost(d, t, s, Scan(d, t, s)) {
        RestartableSuffices(d, delims, t, s);
      }
    } else {
      var x, w :| x in d.paths && x != [] && w in d.stops && Clean(x + w, delims) && RunsPast(d, x, w);
      RestartableNeeded(d, x, w);
      assert (x + w)[0..] == x + w;
    }
  }

  /** A simple sufficient test: no label of an edge at the root occurs deeper in the trie. */
  lemma RootLabelsSuffice(d: Tree, delims: set<Byte>)
    requires WellFormed(d)
    requires forall u, c :: u != [] && u + [c] in d.paths ==> [c] !in d.paths
    ensures Restartable(d, delims)
  {
    forall x, w | x in d.paths && x != [] && w in d.stops
      ensures !RunsPast(d, x, w)
    {
      assert w == w[0..|w|];
      PathPrefix(d, w, 0, |w|, 1);
      assert w[0..1] == w[..1] == [w[0]];
    }
  }

  /** The dictionary of the one word "aab", whose scanner misses it in "aaab". */
  lemma MissedWord()
    ensures var a, b := 'a' as int, 'b' as int;
      var d := Tree({[], [a], [a, a], [a, a, b]}, {[a, a, b]});
      WellFormed(d) && WordAt(d, [a, a, a, b], 1) && Scan(d, [a, a, a, b], 0) == NotFound(4)
  {
    var a: Byte, b: Byte := 'a' as int, 'b' as int;
    var d := Tree({[], [a], [a, a], [a, a, b]}, {[a, a, b]});
    var t := [a, a, a, b];
    assert [a][..0] == [] && [a, a][..1] == [a] && [a, a, b][..2] == [a, a];
    assert t[0..0] == [] && t[0..1] == [a] && t[0..2] == [a, a] && t[0..3] == [a, a, a];
    assert t[2..3] == [a] && t[2..4] == [a, b] && t[3..4] == [b] && t[1..4] == [a, a, b];
    assert t[0..3] !in d.paths && t[2..4] !in d.paths && t[3..4] !in d.paths;
    assert t[2..2] == t[3..3] == [];
    assert Walk(d, t, 0, 2) == 2 && Walk(d, t, 0, 0) == 2;
    assert LastStop(d, t, 0, 2) == 0;
    assert Walk(d, t, 2, 2) == 3 && LastStop(d, t, 2, 3) == 2;
    assert Walk(d, t, 3, 3) == 3;
    assert Scan(d, t, 3) == NotFound(4);
    assert Scan(d, t, 2) == NotFound(4);
  }
}
