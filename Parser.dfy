/**
  * Noun-phrase chunking over parse trees, and the preprocessing of a tokenised
  * sentence before it is parsed.
  *
  * A tree follows the conventions of nltk's Tree: an inner node carries a label
  * (its grammar category) and a list of children; a leaf is a word. A leaf has height 1 and a node one
  * more than its tallest child (so a node without children has height 1, and a
  * node whose children are all words has height 2). The subtrees of a tree are
  * its nodes in pre-order, the tree itself first; words are not subtrees.
  */
module Parser {

  datatype Tree = Leaf(word: string) | Node(category: string, children: seq<Tree>)

  function Height(t: Tree): (h: nat)
    ensures h >= 1
  {
    match t
    case Leaf(_) => 1
    case Node(_, cs) => 1 + MaxHeight(cs)
  }

  /** The height of the tallest tree of cs, 0 when there is none. */
  function MaxHeight(cs: seq<Tree>): nat
  {
    if cs == [] then 0
    else
      var h, rest := Height(cs[0]), MaxHeight(cs[1..]);
      if h > rest then h else rest
  }

  /** The number of nodes and leaves of a tree; it bounds the recursion below. */
  function Size(t: Tree): (n: nat)
    ensures n >= 1
  {
    match t
    case Leaf(_) => 1
    case Node(_, cs) => 1 + SizeOf(cs)
  }

  function SizeOf(cs: seq<Tree>): nat
  {
    if cs == [] then 0 else Size(cs[0]) + SizeOf(cs[1..])
  }

  /** The subtrees of t in pre-order: t itself first when it is a node, then those of each child in turn. */
  function Subtrees(t: Tree): seq<Tree>
  {
    match t
    case Leaf(_) => []
    case Node(_, cs) => [t] + SubtreesOf(cs)
  }

  function SubtreesOf(cs: seq<Tree>): seq<Tree>
  {
    if cs == [] then [] else Subtrees(cs[0]) + SubtreesOf(cs[1..])
  }

  /** The subtrees of t other than t itself, in pre-order. */
  function ProperSubtrees(t: Tree): seq<Tree>
  {
    match t
    case Leaf(_) => []
    case Node(_, cs) => SubtreesOf(cs)
  }

  // ---------------------------------------------------------------------------
  // Facts about subtrees
  // ---------------------------------------------------------------------------

  /** Every subtree is a node no larger than t; those other than the root are strictly smaller. */
  lemma {:induction false} SubtreesSmaller(t: Tree)
    ensures forall s :: s in Subtrees(t) ==> s.Node? && Size(s) <= Size(t)
    ensures forall s :: s in ProperSubtrees(t) ==> s.Node? && Size(s) < Size(t)
    decreases t, 1
  {
    match t
    case Leaf(_) =>
    case Node(_, cs) => SubtreesOfSmaller(cs);
  }

  lemma {:induction false} SubtreesOfSmaller(cs: seq<Tree>)
    ensures forall s :: s in SubtreesOf(cs) ==> s.Node? && Size(s) <= SizeOf(cs)
    decreases cs, 0
  {
    if cs != [] {
      SubtreesSmaller(cs[0]);
      SubtreesOfSmaller(cs[1..]);
    }
  }

  /**
    * What nltk yields for `subtrees(lambda t: t != tree)`: filtering out the
    * subtrees equal to the root drops the root alone, leaving the proper subtrees.
    */
  lemma SubtreesWithoutRoot(t: Tree)
    requires t.Node?
    ensures Subtrees(t) == [t] + ProperSubtrees(t)
    ensures t !in ProperSubtrees(t)
  {
    SubtreesSmaller(t);
  }

  /** A subtree of a subtree of t is a subtree of t. */
  lemma {:induction false} SubtreesTransitive(t: Tree, s: Tree, u: Tree)
    requires s in Subtrees(t) && u in Subtrees(s)
    ensures u in Subtrees(t)
    decreases t, 1
  {
    match t
    case Leaf(_) =>
    case Node(_, cs) =>
      if s != t {
        SubtreesOfTransitive(cs, s, u);
      }
  }

  lemma {:induction false} SubtreesOfTransitive(cs: seq<Tree>, s: Tree, u: Tree)
    requires s in SubtreesOf(cs) && u in Subtrees(s)
    ensures u in SubtreesOf(cs)
    decreases cs, 0
  {
    if cs != [] {
      if s in Subtrees(cs[0]) {
        SubtreesTransitive(cs[0], s, u);
      } else {
        SubtreesOfTransitive(cs[1..], s, u);
      }
    }
  }

  /** A proper subtree of a proper subtree of t is a proper subtree of t. */
  lemma ProperSubtreesTransitive(t: Tree, s: Tree, u: Tree)
    requires s in ProperSubtrees(t) && u in ProperSubtrees(s)
    ensures u in ProperSubtrees(t)
  {
    SubtreesSmaller(t);
    SubtreesWithoutRoot(t);
    SubtreesWithoutRoot(s);
    SubtreesTransitive(t, s, u);
    SubtreesSmaller(s);
  }

  // ---------------------------------------------------------------------------
  // has_np and np_chunk
  // ---------------------------------------------------------------------------

  /**
    * Whether a noun phrase lies in the tree, computed as has_np does: a tree of
    * height 2 answers whether its own label is "NP"; any other tree scans its
    * proper subtrees in pre-order, answering yes at the first one labelled "NP"
    * or for which the question, asked again, is answered yes. What the answer
    * means for taller trees is HasNpMeansContainsNp.
    */
  function HasNp(t: Tree): (r: bool)
    requires t.Node?
    ensures Height(t) == 2 ==> (r <==> IsNp(t))
    decreases Size(t), 1, 0
  {
    if Height(t) == 2 then t.category == "NP"
    else
      SubtreesSmaller(t);
      AnyNp(t, ProperSubtrees(t))
  }

  /** The scan of HasNp over the rest ts of the proper subtrees of root. */
  function AnyNp(root: Tree, ts: seq<Tree>): bool
    requires forall s :: s in ts ==> s.Node? && Size(s) < Size(root)
    decreases Size(root), 0, |ts|
  {
    if ts == [] then false
    else if ts[0].category == "NP" then true
    else if HasNp(ts[0]) then true
    else AnyNp(root, ts[1..])
  }

  /** A node labelled "NP". */
  predicate IsNp(s: Tree)
  {
    s.Node? && s.category == "NP"
  }

  /** Some proper subtree of t is labelled "NP". */
  predicate ContainsNp(t: Tree)
  {
    exists s :: s in ProperSubtrees(t) && IsNp(s)
  }

  /**
    * On a tree whose height is not 2, the answer of HasNp is whether some proper
    * subtree is labelled "NP": asking again of each subtree never changes it.
    */
  lemma {:induction false} HasNpMeansContainsNp(t: Tree)
    requires t.Node? && Height(t) != 2
    ensures HasNp(t) <==> ContainsNp(t)
    decreases Size(t), 1
  {
    SubtreesSmaller(t);
    AnyNpMeansNpAmong(t, t, ProperSubtrees(t));
  }

  /**
    * The scan over part ts of the proper subtrees of t answers yes only when t
    * has a proper subtree labelled "NP", and surely does when one lies in ts.
    */
  lemma {:induction false} AnyNpMeansNpAmong(root: Tree, t: Tree, ts: seq<Tree>)
    requires t.Node? && Size(t) == Size(root)
    requires forall s :: s in ts ==> s.Node? && Size(s) < Size(root)
    requires forall s :: s in ts ==> s in ProperSubtrees(t)
    ensures AnyNp(root, ts) ==> ContainsNp(t)
    ensures (exists s :: s in ts && IsNp(s)) ==> AnyNp(root, ts)
    decreases Size(root), 0, |ts|
  {
    if ts != [] {
      var s := ts[0];
      assert s in ts;
      if !IsNp(s) {
        AnyNpMeansNpAmong(root, t, ts[1..]);
        if HasNp(s) && Height(s) != 2 {
          HasNpMeansContainsNp(s);
          var u :| u in ProperSubtrees(s) && IsNp(u);
          ProperSubtreesTransitive(t, s, u);
        }
        if exists s' :: s' in ts && IsNp(s') {
          var s' :| s' in ts && IsNp(s');
          assert s' in ts[1..];
        }
      }
    }
  }

  /** A noun-phrase chunk: a node labelled "NP" for which HasNp answers no. */
  predicate IsChunk(s: Tree)
  {
    s.Node? && s.category == "NP" && !HasNp(s)
  }

  /** The chunks among ts, in their order. */
  function ChunksAmong(ts: seq<Tree>): seq<Tree>
  {
    if ts == [] then []
    else if IsChunk(ts[0]) then [ts[0]] + ChunksAmong(ts[1..])
    else ChunksAmong(ts[1..])
  }

  /** Walks the subtrees in pre-order and keeps the noun-phrase chunks. */
  method NpChunk(tree: Tree) returns (np: seq<Tree>)
    ensures np == ChunksAmong(Subtrees(tree))
  {
    var subtrees := Subtrees(tree);
    SubtreesSmaller(tree);
    np := [];
    for i := 0 to |subtrees|
      invariant np + ChunksAmong(subtrees[i..]) == ChunksAmong(subtrees)
    {
      assert subtrees[i..][1..] == subtrees[i + 1..];
      if subtrees[i].category == "NP" && HasNp(subtrees[i]) == false {
        np := np + [subtrees[i]];
      }
    }
  }

  /** ChunksAmong keeps exactly the elements of ts that are chunks. */
  lemma {:induction false} ChunksAmongMembers(ts: seq<Tree>)
    ensures forall s :: s in ChunksAmong(ts) <==> s in ts && IsChunk(s)
  {
    if ts != [] {
      ChunksAmongMembers(ts[1..]);
    }
  }

  /**
    * The chunks of a tree are exactly its subtrees labelled "NP" with no proper
    * subtree labelled "NP", except those of height 2: on them HasNp looks at the
    * node's own label and answers yes.
    */
  lemma ChunkCharacterization(t: Tree, s: Tree)
    ensures s in ChunksAmong(Subtrees(t)) <==>
      s in Subtrees(t) && IsNp(s) && Height(s) != 2 && !ContainsNp(s)
  {
    ChunksAmongMembers(Subtrees(t));
    SubtreesSmaller(t);
    if s in Subtrees(t) && Height(s) != 2 {
      HasNpMeansContainsNp(s);
    }
  }

  /** Every chunk is labelled "NP" and has no proper subtree labelled "NP". */
  lemma ChunksAreMinimalNps(t: Tree)
    ensures forall s :: s in ChunksAmong(Subtrees(t)) ==> IsNp(s) && !ContainsNp(s)
  {
    forall s | s in ChunksAmong(Subtrees(t))
      ensures IsNp(s) && !ContainsNp(s)
    {
      ChunkCharacterization(t, s);
      SubtreesSmaller(t);
    }
  }

  // ---------------------------------------------------------------------------
  // Preprocessing
  // ---------------------------------------------------------------------------

  predicate IsLetter(c: char)
  {
    'a' <= c <= 'z' || 'A' <= c <= 'Z'
  }

  /** A token of one or more letters and nothing else. */
  predicate IsAlpha(w: string)
  {
    |w| > 0 && forall i :: 0 <= i < |w| ==> IsLetter(w[i])
  }

  predicate IsLowerWord(w: string)
  {
    forall i :: 0 <= i < |w| ==> !('A' <= w[i] <= 'Z')
  }

  function LowerChar(c: char): char
  {
    if 'A' <= c <= 'Z' then (c as int - 'A' as int + 'a' as int) as char else c
  }

  /** The token with every upper-case letter replaced by its lower-case one. */
  function Lower(w: string): (r: string)
    ensures |r| == |w|
  {
    seq(|w|, i requires 0 <= i < |w| => LowerChar(w[i]))
  }

  /** The alphabetic tokens, in their order, each in lower case. */
  function Preprocessed(tokens: seq<string>): seq<string>
  {
    if tokens == [] then []
    else
      var n := |tokens| - 1;
      Preprocessed(tokens[..n]) + if IsAlpha(tokens[n]) then [Lower(tokens[n])] else []
  }

  /** Keeps the tokens made of letters only, lower-cased, in their order. */
  method Preprocess(tokens: seq<string>) returns (words: seq<string>)
    ensures words == Preprocessed(tokens)
  {
    words := [];
    for i := 0 to |tokens|
      invariant words == Preprocessed(tokens[..i])
    {
      assert tokens[..i + 1][..i] == tokens[..i];
      if IsAlpha(tokens[i]) {
        words := words + [Lower(tokens[i])];
      }
    }
    assert tokens[..|tokens|] == tokens;
  }

  /** Lower-casing an alphabetic token gives an alphabetic lower-case token that lower-casing keeps. */
  lemma LowerAlpha(w: string)
    requires IsAlpha(w)
    ensures IsAlpha(Lower(w)) && IsLowerWord(Lower(w)) && Lower(Lower(w)) == Lower(w)
  {
  }

  /** Preprocessing a sentence in two parts gives the two results one after the other. */
  lemma {:induction false} PreprocessedAppend(a: seq<string>, b: seq<string>)
    ensures Preprocessed(a + b) == Preprocessed(a) + Preprocessed(b)
    decreases |b|
  {
    if b != [] {
      var n := |b| - 1;
      var last := if IsAlpha(b[n]) then [Lower(b[n])] else [];
      assert (a + b)[..|a + b| - 1] == a + b[..n];
      assert (a + b)[|a + b| - 1] == b[n];
      assert Preprocessed(a + b) == Preprocessed(a + b[..n]) + last;
      assert Preprocessed(b) == Preprocessed(b[..n]) + last;
      PreprocessedAppend(a, b[..n]);
    } else {
      assert a + b == a;
    }
  }

  /** A word is kept exactly when it is the lower-cased form of an alphabetic token. */
  lemma {:induction false} PreprocessedMembers(tokens: seq<string>)
    ensures forall w :: w in Preprocessed(tokens) <==> exists t :: t in tokens && IsAlpha(t) && Lower(t) == w
  {
    if tokens != [] {
      var n := |tokens| - 1;
      PreprocessedMembers(tokens[..n]);
      assert tokens == tokens[..n] + [tokens[n]];
    }
  }

  /** Every word of the result is alphabetic and in lower case. */
  lemma PreprocessedWords(tokens: seq<string>)
    ensures forall w :: w in Preprocessed(tokens) ==> IsAlpha(w) && IsLowerWord(w)
  {
    PreprocessedMembers(tokens);
    forall w | w in Preprocessed(tokens) ensures IsAlpha(w) && IsLowerWord(w) {
      var t :| t in tokens && IsAlpha(t) && Lower(t) == w;
      LowerAlpha(t);
    }
  }

  /** Preprocessing what preprocessing produced changes nothing. */
  lemma {:induction false} PreprocessedIdempotent(tokens: seq<string>)
    ensures Preprocessed(Preprocessed(tokens)) == Preprocessed(tokens)
  {
    if tokens != [] {
      var n := |tokens| - 1;
      PreprocessedIdempotent(tokens[..n]);
      if IsAlpha(tokens[n]) {
        var w := Lower(tokens[n]);
        PreprocessedAppend(Preprocessed(tokens[..n]), [w]);
        LowerAlpha(tokens[n]);
        assert [w][..0] == [];
        assert Preprocessed([w]) == [w];
        assert Preprocessed(tokens) == Preprocessed(tokens[..n]) + [w];
      } else {
        assert Preprocessed(tokens) == Preprocessed(tokens[..n]) + [];
        assert Preprocessed(tokens[..n]) + [] == Preprocessed(tokens[..n]);
      }
    }
  }
}
