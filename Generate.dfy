/**
  * The crossword generator: a constraint-satisfaction solver that fills the
  * slots of a puzzle with words from a word list.
  *
  * The solver keeps one candidate set per slot (its domain) and prunes it in
  * place: first to the words of the slot's length (node consistency), then to the
  * words that some candidate of every crossing slot agrees with (arc consistency,
  * AC-3 over a last-in-first-out worklist). It then searches by backtracking,
  * choosing the slot with the fewest candidates (most crossings on a tie) and
  * trying its words in the order that rules out the fewest candidates of the
  * unfilled crossing slots.
  *
  * The members follow the code as written, including two places where it does not
  * do what its documentation says: revise reports the verdict on the last word it
  * examined rather than whether it removed any word, and the consistency check
  * never fails on a conflicting letter. ReviseAny and Ac3Intended are the
  * documented behaviour, proved to reach arc consistency.
  */
module Generate {
  import opened Wrappers
  import opened CrosswordSpec

  /** In the order the solver sorts slots by: fewer candidates first, then more crossings first. */
  predicate Precedes(k: (nat, nat), l: (nat, nat))
  {
    k.0 < l.0 || (k.0 == l.0 && k.1 >= l.1)
  }

  /** The key the solver sorts a slot by: its number of candidates and its number of crossings. */
  function SortKey(cw: Crossword, d: Domains, u: Variable): (nat, nat)
    requires u in d
  {
    (|d[u]|, |Neighbors(cw, u)|)
  }

  /** Word w in slot v rules out candidate wn of n, an unassigned slot crossing v. */
  predicate Conflicting(cw: Crossword, d: Domains, v: Variable, a: Assignment, w: string, n: Variable, wn: string)
    requires WellFormed(cw) && v in cw.variables
  {
    n in Neighbors(cw, v) && n !in a && n in d && wn in d[n] && !Agree(w, wn, Overlap(cw, v, n))
  }

  /** The candidates of unassigned crossing slots that word w, put in slot v, would rule out. */
  ghost function Conflicts(cw: Crossword, d: Domains, v: Variable, a: Assignment, w: string): set<(Variable, string)>
    requires WellFormed(cw) && v in cw.variables
  {
    set n, wn | n in Neighbors(cw, v) && n in d && wn in d[n] && Conflicting(cw, d, v, a, w, n, wn) :: (n, wn)
  }

  /** A set holding exactly the conflicting pairs is the set of conflicts. */
  lemma ConflictsAreConflicting(cw: Crossword, d: Domains, v: Variable, a: Assignment, w: string, found: set<(Variable, string)>)
    requires WellFormed(cw) && v in cw.variables
    requires forall n, wn :: (n, wn) in found <==> Conflicting(cw, d, v, a, w, n, wn)
    ensures found == Conflicts(cw, d, v, a, w)
  {
    forall p | p in found
      ensures p in Conflicts(cw, d, v, a, w)
    {
      var (n, wn) := p;
      assert (n, wn) in found;
    }
  }

  /** A nonempty set of slots with sort keys has a slot that comes first in the sort order. */
  lemma {:induction false} FirstInOrderExists(s: set<Variable>, keys: map<Variable, (nat, nat)>)
    requires s != {} && s <= keys.Keys
    ensures exists v :: v in s && forall u :: u in s ==> Precedes(keys[v], keys[u])
    decreases |s|
  {
    var k :| k in s;
    var rest := s - {k};
    if rest == {} {
      assert s == {k};
    } else {
      FirstInOrderExists(rest, keys);
      var m :| m in rest && forall u :: u in rest ==> Precedes(keys[m], keys[u]);
      if Precedes(keys[m], keys[k]) {
        assert forall u :: u in s ==> Precedes(keys[m], keys[u]);
      } else {
        assert forall u :: u in s ==> Precedes(keys[k], keys[u]);
      }
    }
  }

  /** A nonempty set of counted words has a word with the least count. */
  lemma {:induction false} LeastCountExists(left: set<string>, counts: map<string, nat>)
    requires left != {} && left <= counts.Keys
    ensures exists m :: m in left && forall w :: w in left ==> counts[m] <= counts[w]
    decreases |left|
  {
    var k :| k in left;
    var rest := left - {k};
    if rest == {} {
      assert left == {k};
    } else {
      LeastCountExists(rest, counts);
      var m :| m in rest && forall w :: w in rest ==> counts[m] <= counts[w];
      if counts[m] <= counts[k] {
        assert forall w :: w in left ==> counts[m] <= counts[w];
      } else {
        assert forall w :: w in left ==> counts[k] <= counts[w];
      }
    }
  }

  /**
    * The words of a count table ordered by count, least first, each once: the
    * sort by count followed by the extraction of the words.
    */
  method SortByCount(counts: map<string, nat>) returns (keys: seq<string>)
    ensures forall w :: w in keys <==> w in counts
    ensures forall i, j :: 0 <= i < j < |keys| ==> keys[i] != keys[j]
    ensures forall i, j :: 0 <= i < j < |keys| ==> counts[keys[i]] <= counts[keys[j]]
  {
    keys := [];
    var left := counts.Keys;
    while left != {}
      invariant left <= counts.Keys
      invariant forall w :: w in keys <==> w in counts && w !in left
      invariant forall i, j :: 0 <= i < j < |keys| ==> keys[i] != keys[j]
      invariant forall i, j :: 0 <= i < j < |keys| ==> counts[keys[i]] <= counts[keys[j]]
      invariant forall i, w :: 0 <= i < |keys| && w in left ==> counts[keys[i]] <= counts[w]
      decreases left
    {
      LeastCountExists(left, counts);
      var m :| m in left && forall w :: w in left ==> counts[m] <= counts[w];
      keys := keys + [m];
      left := left - {m};
    }
  }

  /** s fills every slot of cw, agrees with a, and takes each word it adds from the slot's domain in d. */
  predicate Completes(cw: Crossword, d: Domains, s: Assignment, a: Assignment)
  {
    Extends(s, a) && s.Keys == cw.variables &&
    forall v :: v in s && v !in a ==> v in d && s[v] in d[v]
  }

  /** Which consistency check the search applies: the one as written, or the documented one. */
  datatype Check = AsWritten | Documented

  /** s passes the chosen consistency check. */
  predicate Passes(cw: Crossword, check: Check, s: Assignment)
  {
    match check
    case AsWritten => Consistent(s)
    case Documented => ConsistentIntended(cw, s)
  }

  /** Dropping slots from an assignment that passes either check keeps it passing. */
  lemma PassesHereditary(cw: Crossword, check: Check, s: Assignment, a: Assignment)
    requires Extends(s, a) && Passes(cw, check, s)
    ensures Passes(cw, check, a)
  {
    match check
    case AsWritten => ConsistentHereditary(s, a);
    case Documented => IntendedHereditary(cw, s, a);
  }

  /** No completion of a passes the check. */
  ghost predicate NoPassingCompletion(cw: Crossword, d: Domains, a: Assignment, check: Check)
  {
    forall s :: Completes(cw, d, s, a) ==> !Passes(cw, check, s)
  }

  /** No completion of a that puts word in slot v passes the check. */
  ghost predicate Excluded(cw: Crossword, d: Domains, a: Assignment, v: Variable, word: string, check: Check)
  {
    forall s :: Completes(cw, d, s, a) && v in s && s[v] == word ==> !Passes(cw, check, s)
  }

  /** Completing a with v filled by one of its candidates is completing a with that word in v. */
  lemma CompletesThrough(cw: Crossword, d: Domains, a: Assignment, v: Variable, word: string, s: Assignment)
    requires v !in a && v in d && word in d[v]
    ensures Completes(cw, d, s, a[v := word]) ==> Completes(cw, d, s, a)
    ensures Completes(cw, d, s, a) && v in s && s[v] == word ==> Completes(cw, d, s, a[v := word])
  {
  }

  /**
    * When a with v filled by word fails the check, or has no completion that
    * passes it, no completion of a with word in v passes it.
    */
  lemma NoCompletionWith(cw: Crossword, d: Domains, a: Assignment, v: Variable, word: string, check: Check)
    requires v !in a && v in d && word in d[v]
    requires !Passes(cw, check, a[v := word]) || NoPassingCompletion(cw, d, a[v := word], check)
    ensures Excluded(cw, d, a, v, word, check)
  {
    forall s | Completes(cw, d, s, a) && v in s && s[v] == word
      ensures !Passes(cw, check, s)
    {
      CompletesThrough(cw, d, a, v, word, s);
      if Passes(cw, check, s) {
        PassesHereditary(cw, check, s, a[v := word]);
      }
    }
  }

  /** When every candidate of an unassigned slot v is excluded, no completion of a passes the check. */
  lemma AllExcluded(cw: Crossword, d: Domains, a: Assignment, v: Variable, candidates: seq<string>, check: Check)
    requires v in cw.variables && v in d && v !in a
    requires forall w :: w in d[v] ==> w in candidates
    requires forall i :: 0 <= i < |candidates| ==> Excluded(cw, d, a, v, candidates[i], check)
    ensures NoPassingCompletion(cw, d, a, check)
  {
    forall s | Completes(cw, d, s, a)
      ensures !Passes(cw, check, s)
    {
      var i :| 0 <= i < |candidates| && candidates[i] == s[v];
    }
  }

  /** One more excluded candidate extends the excluded prefix of the candidate list by one. */
  lemma ExcludedStep(cw: Crossword, d: Domains, a: Assignment, v: Variable, candidates: seq<string>, k: nat, check: Check)
    requires k < |candidates|
    requires forall i :: 0 <= i < k ==> Excluded(cw, d, a, v, candidates[i], check)
    requires Excluded(cw, d, a, v, candidates[k], check)
    ensures forall i :: 0 <= i < k + 1 ==> Excluded(cw, d, a, v, candidates[i], check)
  {
  }

  /** The completions of the empty assignment are the full assignments within the domains. */
  lemma FullCompletions(cw: Crossword, d: Domains, s: Assignment)
    ensures Completes(cw, d, s, map[]) <==> s.Keys == cw.variables && Within(s, d)
  {
  }

  /** An assignment within shrunk domains is within the domains before. */
  lemma WithinShrinks(s: Assignment, before: Domains, after: Domains)
    requires Shrinks(before, after) && Within(s, after)
    ensures Within(s, before)
  {
  }

  /** Filling an unassigned slot leaves fewer slots unassigned. */
  lemma FewerUnassigned(cw: Crossword, a: Assignment, v: Variable, word: string)
    requires v in cw.variables && v !in a
    ensures |cw.variables - a[v := word].Keys| < |cw.variables - a.Keys|
  {
    assert cw.variables - a[v := word].Keys == (cw.variables - a.Keys) - {v};
  }

  class CrosswordCreator {
    const crossword: Crossword
    var domains: Domains

    /** The puzzle is well formed and every slot, and nothing else, has a domain. */
    predicate Valid()
      reads this
    {
      CrosswordSpec.WellFormed(crossword) && domains.Keys == crossword.variables
    }

    /** Both domains of the arc (x, y) hold only words in which the shared cell can be read. */
    predicate Comparable(x: Variable, y: Variable)
      reads this
    {
      x in domains && y in domains && (x, y) in crossword.overlaps && crossword.overlaps[(x, y)].Some? &&
      (forall w :: w in domains[x] ==> Overlap(crossword, x, y).0 < |w|) &&
      (forall w :: w in domains[y] ==> Overlap(crossword, x, y).1 < |w|)
    }

    lemma ArcComparable(x: Variable, y: Variable)
      requires Valid() && LongEnough(domains) && IsArc(crossword, (x, y))
      ensures Comparable(x, y)
    {
      NeighborsSymmetric(crossword, x, y);
    }

    /** Every slot starts with the whole word list as its domain. */
    constructor (cw: Crossword)
      ensures crossword == cw
      ensures domains == map v | v in cw.variables :: cw.words
      ensures CrosswordSpec.WellFormed(cw) ==> Valid()
    {
      crossword := cw;
      domains := map v | v in cw.variables :: cw.words;
    }

    /** Removes from every domain the words whose length is not the slot's. */
    method EnforceNodeConsistency()
      requires Valid()
      modifies this
      ensures Valid() && Shrinks(old(domains), domains)
      ensures forall v :: v in domains ==> domains[v] == set w | w in old(domains)[v] && |w| == v.length
    {
      var todo := crossword.variables;
      while todo != {}
        invariant todo <= crossword.variables
        invariant domains.Keys == old(domains).Keys
        invariant forall v :: v in domains && v !in todo ==> domains[v] == set w | w in old(domains)[v] && |w| == v.length
        invariant forall v :: v in todo ==> domains[v] == old(domains)[v]
        decreases todo
      {
        var v :| v in todo;
        ghost var before := domains;
        var words := domains[v];
        var rest := words;
        while rest != {}
          invariant rest <= words
          invariant v in domains && domains == before[v := domains[v]]
          invariant forall w :: w in domains[v] <==> w in words && (w in rest || |w| == v.length)
          decreases rest
        {
          var word :| word in rest;
          if |word| != v.length {
            domains := domains[v := domains[v] - {word}];
          }
          rest := rest - {word};
        }
        todo := todo - {v};
      }
    }

    /** Whether some word of y's domain agrees with word at the shared cell ov. */
    method FindsPartner(word: string, y: Variable, ov: (nat, nat)) returns (found: bool)
      requires y in domains && ov.0 < |word|
      requires forall w :: w in domains[y] ==> ov.1 < |w|
      ensures found <==> Supported(word, domains[y], ov)
    {
      found := false;
      var ywords := domains[y];
      while ywords != {}
        invariant ywords <= domains[y]
        invariant forall w :: w in domains[y] - ywords ==> !Agree(word, w, ov)
        decreases ywords
      {
        var yword :| yword in ywords;
        if word[ov.0] == yword[ov.1] {
          found := true;
          return;
        }
        ywords := ywords - {yword};
      }
    }

    /**
      * Revises x against its neighbour y: removes from x's domain the words that no
      * word of y's domain agrees with, and answers whether the last word examined
      * was removed (the words are examined in no particular order). The answer is
      * undefined when x's domain is empty, when x is y, or when they do not cross.
      */
    method Revise(x: Variable, y: Variable) returns (revision: bool)
      requires Valid() && IsArc(crossword, (x, y))
      requires domains[x] != {}
      requires Comparable(x, y)
      modifies this
      ensures domains == old(domains)[x := Revised(old(domains)[x], old(domains)[y], Overlap(crossword, x, y))]
      ensures exists last :: last in old(domains)[x] && revision == (last !in domains[x])
      ensures revision ==> domains[x] != old(domains)[x]
    {
      var ov := crossword.overlaps[(x, y)].value;
      var xwords := domains[x];
      var rest := xwords;
      ghost var last :| last in xwords;
      revision := false;
      while rest != {}
        invariant rest <= xwords
        invariant x in domains && domains == old(domains)[x := domains[x]] && domains[y] == old(domains)[y]
        invariant forall w :: w in domains[x] <==> w in xwords && (w in rest || Supported(w, domains[y], ov))
        invariant rest != xwords ==> last in xwords && last !in rest && revision == (last !in domains[x])
        decreases rest
      {
        var xword :| xword in rest;
        var found := FindsPartner(xword, y, ov);
        revision := !found;
        if revision {
          domains := domains[x := domains[x] - {xword}];
        }
        last := xword;
        rest := rest - {xword};
      }
      assert domains[x] == Revised(xwords, domains[y], ov);
    }

    /**
      * Revise as documented: removes the same words, and answers whether any word
      * was removed; when x and y do not cross it changes nothing and answers false.
      */
    method ReviseAny(x: Variable, y: Variable) returns (revised: bool)
      requires Valid()
      requires IsArc(crossword, (x, y)) ==> Comparable(x, y)
      modifies this
      ensures IsArc(crossword, (x, y)) ==>
        domains == old(domains)[x := Revised(old(domains)[x], old(domains)[y], Overlap(crossword, x, y))]
      ensures !IsArc(crossword, (x, y)) ==> domains == old(domains)
      ensures revised <==> x in old(domains) && domains[x] != old(domains)[x]
    {
      revised := false;
      if x in crossword.variables && y in Neighbors(crossword, x) {
        var ov := crossword.overlaps[(x, y)].value;
        var xwords := domains[x];
        var rest := xwords;
        while rest != {}
          invariant rest <= xwords
          invariant x in domains && domains == old(domains)[x := domains[x]] && domains[y] == old(domains)[y]
          invariant forall w :: w in domains[x] <==> w in xwords && (w in rest || Supported(w, domains[y], ov))
          invariant revised <==> domains[x] != xwords
          decreases rest
        {
          var xword :| xword in rest;
          var found := FindsPartner(xword, y, ov);
          if !found {
            domains := domains[x := domains[x] - {xword}];
            revised := true;
          }
          rest := rest - {xword};
        }
        assert domains[x] == Revised(xwords, domains[y], ov);
      }
    }

    /** Every arc of the puzzle, each once: every slot paired with each of its neighbours. */
    method AllArcs() returns (queue: seq<Arc>)
      ensures forall p :: p in queue <==> IsArc(crossword, p)
    {
      queue := [];
      var xs := crossword.variables;
      while xs != {}
        invariant xs <= crossword.variables
        invariant forall p :: p in queue <==> IsArc(crossword, p) && p.0 !in xs
        decreases xs
      {
        var x :| x in xs;
        var ys := Neighbors(crossword, x);
        while ys != {}
          invariant ys <= Neighbors(crossword, x)
          invariant forall p :: p in queue <==> IsArc(crossword, p) && (p.0 !in xs || (p.0 == x && p.1 !in ys))
          decreases ys
        {
          var y :| y in ys;
          queue := queue + [(x, y)];
          ys := ys - {y};
        }
        xs := xs - {x};
      }
    }

    /** The worklist with (z, x) pushed for every neighbour z of x other than y. */
    method PushIncoming(queue: seq<Arc>, x: Variable, y: Variable) returns (pushed: seq<Arc>)
      requires CrosswordSpec.WellFormed(crossword) && x in crossword.variables
      ensures forall p :: p in pushed <==> p in queue || (p.1 == x && p.0 in Neighbors(crossword, x) && p.0 != y)
      ensures forall p :: p in pushed && p !in queue ==> IsArc(crossword, p)
      ensures |queue| <= |pushed| && pushed[..|queue|] == queue
    {
      pushed := queue;
      var ns := Neighbors(crossword, x);
      while ns != {}
        invariant ns <= Neighbors(crossword, x)
        invariant forall p :: p in pushed <==> p in queue || (p.1 == x && p.0 in Neighbors(crossword, x) - ns && p.0 != y)
        invariant forall p :: p in pushed && p !in queue ==> IsArc(crossword, p)
        invariant |queue| <= |pushed| && pushed[..|queue|] == queue
        decreases ns
      {
        var n :| n in ns;
        if n != y {
          NeighborsSymmetric(crossword, x, n);
          pushed := pushed + [(n, x)];
        }
        ns := ns - {n};
      }
    }

    /**
      * AC-3 as written: starting from every arc of the puzzle, pops the last arc
      * (x, y), revises x against y and, when revise answers true, fails if x's
      * domain is empty and otherwise pushes (z, x) for every other neighbour z of x.
      * Domains only shrink and no solution is lost; false means that a domain was
      * emptied, and then the puzzle has no solution among the candidates. Started
      * from a given list of arcs the code reads a worklist it never created.
      */
    method Ac3(arcs: Option<seq<Arc>>) returns (ok: bool)
      requires arcs.None?
      requires Valid() && LongEnough(domains) && CrossingSlotsFilled(crossword, domains)
      modifies this
      ensures Valid() && LongEnough(domains) && Shrinks(old(domains), domains)
      ensures KeepsSolutions(crossword, old(domains), domains)
      ensures ok ==> CrossingSlotsFilled(crossword, domains)
      ensures ok ==> forall v :: v in old(domains) && old(domains)[v] != {} ==> domains[v] != {}
      ensures !ok ==> exists v :: v in crossword.variables && old(domains)[v] != {} && domains[v] == {}
      ensures !ok ==> forall sol :: Solution(crossword, sol) ==> !Within(sol, old(domains))
    {
      var queue := AllArcs();
      ghost var start := domains;
      while |queue| > 0
        invariant CrosswordSpec.WellFormed(crossword) && WrittenInvariant(crossword, start, domains, queue)
        decreases Pairs(domains), |queue|
      {
        var (x, y) := queue[|queue| - 1];
        ghost var popped := queue;
        queue := queue[..|queue| - 1];
        ghost var before := domains;
        ghost var rest := queue;
        ArcComparable(x, y);
        var revision := Revise(x, y);
        ghost var after := domains;
        ghost var last :| last in before[x] && revision == (last !in after[x]);
        if revision {
          if |domains[x]| == 0 {
            RevisionStep(crossword, start, before, x, y);
            EmptyDomainNoSolution(crossword, start, domains, x);
            return false;
          }
          queue := PushIncoming(queue, x, y);
        }
        WrittenMaintained(crossword, start, before, after, x, y, popped, rest, queue);
      }
      return true;
    }

    /** Every arc of the puzzle is consistent. */
    ghost predicate ArcConsistent()
      reads this
    {
      forall p :: IsArc(crossword, p) ==> ArcConsistentIn(crossword, domains, p.0, p.1)
    }

    /**
      * AC-3 as documented: as Ac3, but revising with ReviseAny, so that a revision
      * is never missed, and starting from the given arcs when there are any. On
      * success every arc of the puzzle is consistent, provided the arcs left out of
      * the starting list were consistent to begin with. Run on stable domains it
      * succeeds and changes nothing, so running it twice is running it once.
      */
    method Ac3Intended(arcs: Option<seq<Arc>>) returns (ok: bool)
      requires Valid() && LongEnough(domains)
      requires arcs.Some? ==> forall p :: p in arcs.value ==> IsArc(crossword, p)
      modifies this
      ensures Valid() && LongEnough(domains) && Shrinks(old(domains), domains)
      ensures KeepsSolutions(crossword, old(domains), domains)
      ensures ok && old(StartCovered(arcs)) ==> ArcConsistent()
      ensures Stable(crossword, old(domains)) ==> ok && domains == old(domains)
      ensures ok ==> forall v :: v in old(domains) && old(domains)[v] != {} ==> domains[v] != {}
      ensures !ok ==> exists v :: v in crossword.variables && old(domains)[v] != {} && domains[v] == {}
      ensures !ok ==> forall sol :: Solution(crossword, sol) ==> !Within(sol, old(domains))
    {
      var queue;
      if arcs.None? {
        queue := AllArcs();
      } else {
        queue := arcs.value;
      }
      ghost var covered := StartCovered(arcs);
      ghost var start := domains;
      ghost var wasStable := Stable(crossword, domains);
      assert covered ==> Waiting(crossword, domains, queue);
      while |queue| > 0
        invariant CrosswordSpec.WellFormed(crossword) && WorklistInvariant(crossword, start, domains, queue, covered, wasStable)
        decreases Pairs(domains), |queue|
      {
        var (x, y) := queue[|queue| - 1];
        ghost var popped := queue;
        queue := queue[..|queue| - 1];
        ghost var before := domains;
        ghost var rest := queue;
        ArcComparable(x, y);
        var revised := ReviseAny(x, y);
        ghost var after := domains;
        StableUnrevised(crossword, start, before, after, x, y, revised, wasStable);
        if revised {
          RevisionStep(crossword, start, before, x, y);
          if |domains[x]| == 0 {
            EmptyDomainNoSolution(crossword, start, domains, x);
            return false;
          }
          queue := PushIncoming(queue, x, y);
        }
        WorklistMaintained(crossword, start, before, after, x, y, revised, popped, rest, queue, covered, wasStable);
      }
      return true;
    }

    /** The arcs left out of the starting list are consistent. */
    ghost predicate StartCovered(arcs: Option<seq<Arc>>)
      reads this
    {
      forall p :: IsArc(crossword, p) && arcs.Some? && p !in arcs.value ==> ArcConsistentIn(crossword, domains, p.0, p.1)
    }

    // -------------------------------------------------------------------------
    // Search
    // -------------------------------------------------------------------------

    /**
      * Chooses an unassigned slot with the fewest candidates and, among those, the
      * most crossings. There must be an unassigned slot.
      */
    method SelectUnassignedVariable(a: Assignment) returns (v: Variable)
      requires Valid()
      requires exists u :: u in crossword.variables && u !in a
      ensures v in crossword.variables && v !in a
      ensures forall u :: u in crossword.variables && u !in a ==>
        Precedes(SortKey(crossword, domains, v), SortKey(crossword, domains, u))
    {
      var unassigned: map<Variable, (nat, nat)> := map[];
      var todo := crossword.variables;
      while todo != {}
        invariant todo <= crossword.variables
        invariant forall u :: u in unassigned <==> u in crossword.variables && u !in todo && u !in a
        invariant forall u :: u in unassigned ==> unassigned[u] == SortKey(crossword, domains, u)
        decreases todo
      {
        var u :| u in todo;
        if u !in a {
          unassigned := unassigned[u := SortKey(crossword, domains, u)];
        }
        todo := todo - {u};
      }
      var some :| some in crossword.variables && some !in a;
      assert some in unassigned;
      FirstInOrderExists(unassigned.Keys, unassigned);
      v :| v in unassigned && forall u :: u in unassigned ==> Precedes(unassigned[v], unassigned[u]);
      forall u | u in crossword.variables && u !in a
        ensures Precedes(SortKey(crossword, domains, v), SortKey(crossword, domains, u))
      {
        assert u in unassigned;
      }
    }

    /** Counts the candidates that w, put in slot v, rules out in the unassigned crossing slots. */
    method ConflictCount(v: Variable, a: Assignment, w: string) returns (count: nat)
      requires Valid() && LongEnough(domains) && v in crossword.variables && |w| >= v.length
      ensures count == |Conflicts(crossword, domains, v, a, w)|
    {
      count := 0;
      ghost var found: set<(Variable, string)> := {};
      var ns := Neighbors(crossword, v);
      while ns != {}
        invariant ns <= Neighbors(crossword, v)
        invariant count == |found|
        invariant forall n, wn :: (n, wn) in found <==> Conflicting(crossword, domains, v, a, w, n, wn) && n !in ns
        decreases ns
      {
        var n :| n in ns;
        if n !in a {
          NeighborsSymmetric(crossword, v, n);
          var ov := crossword.overlaps[(v, n)].value;
          var rest := domains[n];
          while rest != {}
            invariant rest <= domains[n]
            invariant count == |found|
            invariant forall m, wm :: (m, wm) in found <==> Conflicting(crossword, domains, v, a, w, m, wm) && (m !in ns || (m == n && wm !in rest))
            decreases rest
          {
            var wn :| wn in rest;
            if w[ov.0] != wn[ov.1] {
              assert Conflicting(crossword, domains, v, a, w, n, wn);
              found := found + {(n, wn)};
              count := count + 1;
            }
            rest := rest - {wn};
          }
        }
        ns := ns - {n};
      }
      ConflictsAreConflicting(crossword, domains, v, a, w, found);
    }

    /**
      * The candidates of slot v, each once, ordered so that the words ruling out
      * fewer candidates of unassigned crossing slots come first.
      */
    method OrderDomainValues(v: Variable, a: Assignment) returns (ordered: seq<string>)
      requires Valid() && LongEnough(domains) && v in crossword.variables
      ensures forall w :: w in ordered <==> w in domains[v]
      ensures forall i, j :: 0 <= i < j < |ordered| ==> ordered[i] != ordered[j]
      ensures forall i, j :: 0 <= i < j < |ordered| ==> |Conflicts(crossword, domains, v, a, ordered[i])| <= |Conflicts(crossword, domains, v, a, ordered[j])|
    {
      var constrain: map<string, nat> := map[];
      var rest := domains[v];
      while rest != {}
        invariant rest <= domains[v]
        invariant constrain.Keys == domains[v] - rest
        invariant forall w :: w in constrain ==> constrain[w] == |Conflicts(crossword, domains, v, a, w)|
        decreases rest
      {
        var w :| w in rest;
        var count := ConflictCount(v, a, w);
        constrain := constrain[w := count];
        rest := rest - {w};
      }
      ordered := SortByCount(constrain);
    }

    /** An assignment to some of the slots that is not complete leaves a slot unassigned. */
    lemma SomeUnassigned(a: Assignment)
      requires a.Keys <= crossword.variables && !AssignmentComplete(crossword, a)
      ensures exists u :: u in crossword.variables && u !in a
    {
    }

    /**
      * Backtracking search from the partial assignment a, which it does not change.
      * A complete a is returned as it is; otherwise the result completes a with
      * candidates and passes the consistency check, and None means that no
      * completion of a by candidates passes it.
      */
    method Backtrack(a: Assignment) returns (r: Option<Assignment>)
      requires Valid() && LongEnough(domains) && a.Keys <= crossword.variables
      ensures AssignmentComplete(crossword, a) ==> r == Some(a)
      ensures r.Some? ==> Completes(crossword, domains, r.value, a)
      ensures r.Some? && !AssignmentComplete(crossword, a) ==> Consistent(r.value)
      ensures r.None? ==> NoPassingCompletion(crossword, domains, a, AsWritten)
      decreases |crossword.variables - a.Keys|
    {
      if AssignmentComplete(crossword, a) {
        return Some(a);
      }
      SomeUnassigned(a);
      var v := SelectUnassignedVariable(a);
      var candidates := OrderDomainValues(v, a);
      ghost var d := domains;
      for k := 0 to |candidates|
        invariant forall i :: 0 <= i < k ==> Excluded(crossword, d, a, v, candidates[i], AsWritten)
      {
        var assignmentTemp := a[v := candidates[k]];
        if Consistent(assignmentTemp) {
          FewerUnassigned(crossword, a, v, candidates[k]);
          var result := Backtrack(assignmentTemp);
          if result.Some? {
            CompletesThrough(crossword, d, a, v, candidates[k], result.value);
            return result;
          }
        }
        NoCompletionWith(crossword, d, a, v, candidates[k], AsWritten);
        ExcludedStep(crossword, d, a, v, candidates, k, AsWritten);
      }
      AllExcluded(crossword, d, a, v, candidates, AsWritten);
      return None;
    }

    /**
      * Backtracking as documented: as Backtrack, but a candidate is kept only when
      * the documented check, conflicting letters included, accepts the extended
      * assignment. From an assignment that passes that check, the result is a
      * full assignment of candidates that passes it, and None means that no such
      * completion exists.
      */
    method BacktrackIntended(a: Assignment) returns (r: Option<Assignment>)
      requires Valid() && LongEnough(domains) && a.Keys <= crossword.variables
      requires ConsistentIntended(crossword, a)
      ensures AssignmentComplete(crossword, a) ==> r == Some(a)
      ensures r.Some? ==> Completes(crossword, domains, r.value, a) && ConsistentIntended(crossword, r.value)
      ensures r.None? ==> NoPassingCompletion(crossword, domains, a, Documented)
      decreases |crossword.variables - a.Keys|
    {
      if AssignmentComplete(crossword, a) {
        return Some(a);
      }
      SomeUnassigned(a);
      var v := SelectUnassignedVariable(a);
      var candidates := OrderDomainValues(v, a);
      ghost var d := domains;
      for k := 0 to |candidates|
        invariant forall i :: 0 <= i < k ==> Excluded(crossword, d, a, v, candidates[i], Documented)
      {
        var assignmentTemp := a[v := candidates[k]];
        if ConsistentIntended(crossword, assignmentTemp) {
          FewerUnassigned(crossword, a, v, candidates[k]);
          var result := BacktrackIntended(assignmentTemp);
          if result.Some? {
            CompletesThrough(crossword, d, a, v, candidates[k], result.value);
            return result;
          }
        }
        NoCompletionWith(crossword, d, a, v, candidates[k], Documented);
        ExcludedStep(crossword, d, a, v, candidates, k, Documented);
      }
      AllExcluded(crossword, d, a, v, candidates, Documented);
      return None;
    }

    /**
      * Enforces node consistency, then arc consistency (whose answer is not used),
      * then searches from the empty assignment. A returned assignment fills every
      * slot with distinct words of the right lengths from the word list; None
      * means that the puzzle has no solution in the word list. Arc consistency
      * needs a word of the right length for every slot that crosses another.
      */
    method Solve() returns (r: Option<Assignment>)
      requires Valid()
      requires forall v :: v in crossword.variables && Neighbors(crossword, v) != {} ==>
        exists w :: w in domains[v] && |w| == v.length
      modifies this
      ensures Valid() && Shrinks(old(domains), domains)
      ensures r.Some? ==> r.value.Keys == crossword.variables && Consistent(r.value) && Within(r.value, old(domains))
      ensures r.None? ==> forall sol :: Solution(crossword, sol) ==> !Within(sol, old(domains))
      ensures (exists v :: v in crossword.variables && domains[v] == {}) ==> r.None?
    {
      EnforceNodeConsistency();
      forall v | v in crossword.variables && Neighbors(crossword, v) != {}
        ensures domains[v] != {}
      {
        var w :| w in old(domains)[v] && |w| == v.length;
        assert w in domains[v];
      }
      ghost var pruned := domains;
      var arcConsistent := Ac3(None);
      r := Backtrack(map[]);
      if r.Some? {
        FullCompletions(crossword, domains, r.value);
        WithinShrinks(r.value, old(domains), domains);
      }
      if r.None? {
        forall sol | Solution(crossword, sol) && Within(sol, old(domains))
          ensures false
        {
          assert Within(sol, pruned);
          FullCompletions(crossword, domains, sol);
          IntendedIsConsistent(crossword, sol);
        }
      }
    }

    /**
      * Solve as documented: node consistency, AC-3 as documented, then the
      * backtracking search with the documented check. When AC-3 empties a domain
      * the puzzle is declared unsolvable without a search. A returned assignment
      * is a solution of the puzzle from the word list, and None means that there
      * is none.
      */
    method SolveIntended() returns (r: Option<Assignment>)
      requires Valid()
      modifies this
      ensures Valid() && Shrinks(old(domains), domains)
      ensures r.Some? ==> Solution(crossword, r.value) && Within(r.value, old(domains))
      ensures r.None? ==> forall sol :: Solution(crossword, sol) ==> !Within(sol, old(domains))
    {
      EnforceNodeConsistency();
      ghost var pruned := domains;
      var arcConsistent := Ac3Intended(None);
      if !arcConsistent {
        forall sol | Solution(crossword, sol) && Within(sol, old(domains))
          ensures false
        {
          assert Within(sol, pruned);
        }
        return None;
      }
      r := BacktrackIntended(map[]);
      if r.Some? {
        FullCompletions(crossword, domains, r.value);
        WithinShrinks(r.value, old(domains), domains);
      }
      if r.None? {
        forall sol | Solution(crossword, sol) && Within(sol, old(domains))
          ensures false
        {
          assert Within(sol, pruned);
          FullCompletions(crossword, domains, sol);
        }
      }
    }
  }
}
