/**
  * The crossword puzzle as the solver sees it, and the notions its operations are
  * judged by.
  *
  * The puzzle itself (slots, overlaps and the word list read from two files) is
  * given here as plain data: a set of slot variables, the overlap of every ordered
  * pair of slots, and a set of words. On top of it this module defines the
  * arc-consistency vocabulary (a word supported across an arc, the revised domain,
  * an arc-consistent pair of domains), the two consistency predicates (the one the
  * solver's code computes and the one its documentation describes), and what a
  * solution is.
  */
module CrosswordSpec {
  import opened Wrappers

  datatype Direction = Across | Down

  /** A slot of the grid: the row and column of its first cell, its direction and its length. */
  datatype Variable = Variable(i: nat, j: nat, direction: Direction, length: nat)

  /** An ordered pair of slots; as an arc, the first is revised against the second. */
  type Arc = (Variable, Variable)

  /** A partial assignment of words to slots. */
  type Assignment = map<Variable, string>

  /** The candidate words of each slot. */
  type Domains = map<Variable, set<string>>

  /**
    * The puzzle: its slots, the overlap of ordered pairs of slots (None when they
    * do not cross, otherwise the index of the shared cell in the first word and
    * in the second), and the word list.
    */
  datatype Crossword = Crossword(variables: set<Variable>, overlaps: map<Arc, Option<(nat, nat)>>, words: set<string>)

  /** The overlap seen from the other slot: the two indices trade places. */
  function Swap(o: Option<(nat, nat)>): Option<(nat, nat)>
  {
    match o
    case None => None
    case Some((k, l)) => Some((l, k))
  }

  /** The overlap of x and y is recorded from both sides, with the indices swapped. */
  predicate Mirrored(cw: Crossword, x: Variable, y: Variable)
  {
    (x, y) in cw.overlaps && (y, x) in cw.overlaps && cw.overlaps[(y, x)] == Swap(cw.overlaps[(x, y)])
  }

  /** A recorded overlap indexes a cell inside both words. */
  predicate InBounds(x: Variable, y: Variable, o: Option<(nat, nat)>)
  {
    o.Some? ==> o.value.0 < x.length && o.value.1 < y.length
  }

  /** Overlaps relate two distinct slots of the puzzle, symmetrically, inside both words. */
  predicate WellFormed(cw: Crossword)
  {
    forall p :: p in cw.overlaps ==>
      p.0 in cw.variables && p.1 in cw.variables && p.0 != p.1 && Mirrored(cw, p.0, p.1) && InBounds(p.0, p.1, cw.overlaps[p])
  }

  /** The slots other than x that cross x. */
  function Neighbors(cw: Crossword, x: Variable): set<Variable>
  {
    set y | y in cw.variables && y != x && (x, y) in cw.overlaps && cw.overlaps[(x, y)].Some?
  }

  /** An arc of the puzzle: a slot and one of its neighbours. */
  predicate IsArc(cw: Crossword, p: Arc)
  {
    p.0 in cw.variables && p.1 in Neighbors(cw, p.0)
  }

  /** The shared cell of two crossing slots, as an index into each word. */
  function Overlap(cw: Crossword, x: Variable, y: Variable): (nat, nat)
    requires (x, y) in cw.overlaps && cw.overlaps[(x, y)].Some?
  {
    cw.overlaps[(x, y)].value
  }

  /** Crossing is symmetric, and the shared cell is the same cell seen from both sides. */
  lemma NeighborsSymmetric(cw: Crossword, x: Variable, y: Variable)
    requires WellFormed(cw) && IsArc(cw, (x, y))
    ensures IsArc(cw, (y, x))
    ensures Overlap(cw, y, x) == (Overlap(cw, x, y).1, Overlap(cw, x, y).0)
    ensures Overlap(cw, x, y).0 < x.length && Overlap(cw, x, y).1 < y.length
  {
    assert (x, y) in cw.overlaps;
    assert Mirrored(cw, x, y);
  }

  // ---------------------------------------------------------------------------
  // Arc consistency
  // ---------------------------------------------------------------------------

  /** Two words put the same letter in the shared cell ov. */
  predicate Agree(wx: string, wy: string, ov: (nat, nat))
  {
    ov.0 < |wx| && ov.1 < |wy| && wx[ov.0] == wy[ov.1]
  }

  /** Some word of dy agrees with wx at the shared cell. */
  predicate Supported(wx: string, dy: set<string>, ov: (nat, nat))
  {
    exists wy :: wy in dy && Agree(wx, wy, ov)
  }

  /** The words of dx that some word of dy supports. */
  function Revised(dx: set<string>, dy: set<string>, ov: (nat, nat)): set<string>
  {
    set w | w in dx && Supported(w, dy, ov)
  }

  /** Every word of x's domain has a partner in y's domain. */
  predicate ArcConsistentIn(cw: Crossword, d: Domains, x: Variable, y: Variable)
  {
    x in d && y in d && (x, y) in cw.overlaps && cw.overlaps[(x, y)].Some? &&
    forall w :: w in d[x] ==> Supported(w, d[y], Overlap(cw, x, y))
  }

  /** No revision along an arc of the puzzle would change d: AC-3 has nothing left to do. */
  ghost predicate Stable(cw: Crossword, d: Domains)
  {
    forall x, y {:trigger Revised(d[x], d[y], Overlap(cw, x, y))} ::
      IsArc(cw, (x, y)) && x in d && y in d ==> Revised(d[x], d[y], Overlap(cw, x, y)) == d[x]
  }

  /** The domains are stable exactly when every arc of the puzzle is consistent. */
  lemma StableIffArcConsistent(cw: Crossword, d: Domains)
    requires d.Keys == cw.variables
    ensures Stable(cw, d) <==> forall p :: IsArc(cw, p) ==> ArcConsistentIn(cw, d, p.0, p.1)
  {
    if Stable(cw, d) {
      forall p | IsArc(cw, p)
        ensures ArcConsistentIn(cw, d, p.0, p.1)
      {
        assert Revised(d[p.0], d[p.1], Overlap(cw, p.0, p.1)) == d[p.0];
      }
    }
    if forall p :: IsArc(cw, p) ==> ArcConsistentIn(cw, d, p.0, p.1) {
      forall x, y | IsArc(cw, (x, y)) && x in d && y in d
        ensures Revised(d[x], d[y], Overlap(cw, x, y)) == d[x]
      {
        assert ArcConsistentIn(cw, d, x, y);
      }
    }
  }

  /**
    * Revising along an arc changes nothing, so the revision reports no change,
    * when the domains are still those of a stable start.
    */
  lemma StableUnrevised(cw: Crossword, start: Domains, before: Domains, after: Domains,
                        x: Variable, y: Variable, revised: bool, stable: bool)
    requires IsArc(cw, (x, y)) && x in before && y in before
    requires after == before[x := Revised(before[x], before[y], Overlap(cw, x, y))]
    requires revised <==> after[x] != before[x]
    requires stable ==> before == start && Stable(cw, start)
    ensures stable ==> !revised
  {
  }

  /** Each domain is a subset of the one before, and no slot appears or disappears. */
  predicate Shrinks(before: Domains, after: Domains)
  {
    after.Keys == before.Keys && forall v :: v in before ==> after[v] <= before[v]
  }

  /** The slot-word pairs still possible; revising never adds one. */
  function Pairs(d: Domains): set<(Variable, string)>
  {
    set v, w | v in d && w in d[v] :: (v, w)
  }

  /** Removing a word from one domain removes a pair; shrinking never adds one. */
  lemma PairsShrink(before: Domains, after: Domains, v: Variable, w: string)
    requires Shrinks(before, after)
    ensures Pairs(after) <= Pairs(before)
    ensures v in before && w in before[v] && w !in after[v] ==> Pairs(after) < Pairs(before)
  {
    if v in before && w in before[v] && w !in after[v] {
      assert (v, w) in Pairs(before);
    }
  }

  /** Every candidate is at least as long as its slot, so every shared cell can be read. */
  predicate LongEnough(d: Domains)
  {
    forall v, w :: v in d && w in d[v] ==> |w| >= v.length
  }

  /** A slot that crosses another has a candidate left. */
  predicate CrossingSlotsFilled(cw: Crossword, d: Domains)
  {
    forall v :: v in cw.variables && Neighbors(cw, v) != {} ==> v in d && d[v] != {}
  }

  /** Replacing one domain by a nonempty set keeps every crossing slot filled. */
  lemma FilledAfterRevision(cw: Crossword, d: Domains, x: Variable, dx: set<string>)
    requires CrossingSlotsFilled(cw, d) && dx != {}
    ensures CrossingSlotsFilled(cw, d[x := dx])
  {
  }

  /** Every solution made of candidates of before is made of candidates of after. */
  ghost predicate KeepsSolutions(cw: Crossword, before: Domains, after: Domains)
  {
    forall sol :: Solution(cw, sol) && Within(sol, before) ==> Within(sol, after)
  }

  /**
    * Revising x against y, after domains that shrank from start without losing a
    * solution, shrinks them further without losing one, and removes a slot-word
    * pair when it changes x's domain.
    */
  lemma RevisionStep(cw: Crossword, start: Domains, before: Domains, x: Variable, y: Variable)
    requires WellFormed(cw) && IsArc(cw, (x, y)) && before.Keys == cw.variables
    requires Shrinks(start, before) && KeepsSolutions(cw, start, before) && LongEnough(before)
    ensures var after := before[x := Revised(before[x], before[y], Overlap(cw, x, y))];
      after.Keys == cw.variables && Shrinks(start, after) && KeepsSolutions(cw, start, after) &&
      LongEnough(after) && Pairs(after) <= Pairs(before) &&
      (after[x] != before[x] ==> Pairs(after) < Pairs(before)) &&
      (after[x] == before[x] ==> after == before)
  {
    var after := before[x := Revised(before[x], before[y], Overlap(cw, x, y))];
    if after[x] == before[x] {
      assert after == before;
    }
    forall sol | Solution(cw, sol) && Within(sol, start)
      ensures Within(sol, after)
    {
      RevisedKeepsSolution(cw, before, x, y, sol);
    }
    PairsShrink(before, after, x, "");
    if after[x] != before[x] {
      var gone :| gone in before[x] && gone !in after[x];
      PairsShrink(before, after, x, gone);
    }
  }

  /** An empty domain leaves no solution made of candidates. */
  lemma EmptyDomainNoSolution(cw: Crossword, start: Domains, d: Domains, x: Variable)
    requires KeepsSolutions(cw, start, d) && x in cw.variables && x in d && d[x] == {}
    ensures forall sol :: Solution(cw, sol) ==> !Within(sol, start)
  {
  }

  /** Revising x against y makes the arc (x, y) consistent. */
  lemma RevisedIsArcConsistent(cw: Crossword, d: Domains, x: Variable, y: Variable)
    requires WellFormed(cw) && IsArc(cw, (x, y)) && x in d && y in d
    ensures ArcConsistentIn(cw, d[x := Revised(d[x], d[y], Overlap(cw, x, y))], x, y)
  {
  }

  /**
    * Revising x against y keeps the reverse arc (y, x) consistent: every word of
    * x's domain that supported a word of y's domain is itself supported by it.
    */
  lemma {:induction false} RevisedKeepsReverseArc(cw: Crossword, d: Domains, x: Variable, y: Variable)
    requires WellFormed(cw) && IsArc(cw, (x, y)) && x in d && y in d
    requires ArcConsistentIn(cw, d, y, x)
    ensures ArcConsistentIn(cw, d[x := Revised(d[x], d[y], Overlap(cw, x, y))], y, x)
  {
    NeighborsSymmetric(cw, x, y);
    var ov := Overlap(cw, x, y);
    var d' := d[x := Revised(d[x], d[y], ov)];
    forall wy | wy in d'[y]
      ensures Supported(wy, d'[x], Overlap(cw, y, x))
    {
      var wx :| wx in d[x] && Agree(wy, wx, Overlap(cw, y, x));
      assert Agree(wx, wy, ov);
      assert wx in d'[x];
    }
  }

  /** Shrinking the domain of x keeps every arc out of x consistent. */
  lemma ShrinkingKeepsArc(cw: Crossword, d: Domains, x: Variable, z: Variable, s: set<string>)
    requires ArcConsistentIn(cw, d, x, z) && x != z && s <= d[x]
    ensures ArcConsistentIn(cw, d[x := s], x, z)
  {
  }

  /** Every arc of the puzzle that is not waiting in the worklist is consistent. */
  ghost predicate Waiting(cw: Crossword, d: Domains, queue: seq<Arc>)
  {
    forall p :: IsArc(cw, p) && p !in queue ==> ArcConsistentIn(cw, d, p.0, p.1)
  }

  /**
    * One step of AC-3 as documented keeps its worklist invariant, that every arc
    * not waiting in the worklist is consistent: the arc (x, y) just revised
    * becomes consistent, arcs out of x stay consistent as x's domain shrinks, the
    * reverse arc (y, x) stays consistent, and every other arc into x is pushed
    * again when x's domain changed.
    */
  lemma {:induction false} WorklistStep(cw: Crossword, before: Domains, after: Domains, x: Variable, y: Variable,
                                        revised: bool, popped: seq<Arc>, rest: seq<Arc>, queue: seq<Arc>)
    requires WellFormed(cw) && before.Keys == cw.variables && IsArc(cw, (x, y))
    requires after == before[x := Revised(before[x], before[y], Overlap(cw, x, y))]
    requires revised <==> after[x] != before[x]
    requires popped == rest + [(x, y)] && Waiting(cw, before, popped)
    requires forall q :: q in rest ==> q in queue
    requires revised ==> forall z :: z in Neighbors(cw, x) && z != y ==> (z, x) in queue
    ensures Waiting(cw, after, queue)
  {
    forall p | IsArc(cw, p) && p !in queue
      ensures ArcConsistentIn(cw, after, p.0, p.1)
    {
      var (a, b) := p;
      if p == (x, y) {
        RevisedIsArcConsistent(cw, before, x, y);
      } else {
        assert p !in popped;
        if !revised {
          assert after == before;
        } else if a == x {
          ShrinkingKeepsArc(cw, before, x, b, after[x]);
        } else if b == x {
          if a == y {
            RevisedKeepsReverseArc(cw, before, x, y);
          } else {
            NeighborsSymmetric(cw, a, x);
            assert false;
          }
        } else {
          assert after[a] == before[a] && after[b] == before[b];
        }
      }
    }
  }

  /**
    * What AC-3 as written keeps true from one worklist step to the next: the
    * domains only shrank from start, kept every solution, emptied no domain and
    * left every crossing slot a candidate, and the worklist holds arcs.
    */
  ghost predicate WrittenInvariant(cw: Crossword, start: Domains, d: Domains, queue: seq<Arc>)
  {
    d.Keys == cw.variables && LongEnough(d) && Shrinks(start, d) && KeepsSolutions(cw, start, d) &&
    NoneEmptied(start, d) && CrossingSlotsFilled(cw, d) && (forall p :: p in queue ==> IsArc(cw, p))
  }

  /**
    * One step of AC-3 as written, which pops (x, y), revises x against y, leaves
    * x a candidate and pushes arcs of the puzzle, preserves WrittenInvariant, and
    * a change to the domains removes a slot-word pair.
    */
  lemma WrittenMaintained(cw: Crossword, start: Domains, before: Domains, after: Domains, x: Variable, y: Variable,
                          popped: seq<Arc>, rest: seq<Arc>, queue: seq<Arc>)
    requires WellFormed(cw) && |popped| > 0 && popped[|popped| - 1] == (x, y) && rest == popped[..|popped| - 1]
    requires WrittenInvariant(cw, start, before, popped) && IsArc(cw, (x, y))
    requires after == before[x := Revised(before[x], before[y], Overlap(cw, x, y))] && after[x] != {}
    requires forall p :: p in queue ==> p in rest || IsArc(cw, p)
    ensures WrittenInvariant(cw, start, after, queue)
    ensures Pairs(after) <= Pairs(before) && (after != before ==> Pairs(after) < Pairs(before))
  {
    RevisionStep(cw, start, before, x, y);
    FilledAfterRevision(cw, before, x, after[x]);
  }

  /** No domain that was nonempty at start is empty in d. */
  ghost predicate NoneEmptied(start: Domains, d: Domains)
  {
    forall v :: v in start && start[v] != {} ==> v in d && d[v] != {}
  }

  /**
    * What AC-3 as documented keeps true from one worklist step to the next: the
    * domains only shrank from start, kept every solution and emptied no domain,
    * the worklist holds arcs, when covered every arc not in the worklist is
    * consistent, and when the start was stable nothing has changed.
    */
  ghost predicate WorklistInvariant(cw: Crossword, start: Domains, d: Domains, queue: seq<Arc>, covered: bool, stable: bool)
  {
    d.Keys == cw.variables && LongEnough(d) && Shrinks(start, d) && KeepsSolutions(cw, start, d) && NoneEmptied(start, d) &&
    (forall p :: p in queue ==> IsArc(cw, p)) && (covered ==> Waiting(cw, d, queue)) && (stable ==> d == start)
  }

  /**
    * Popping (x, y), revising x against y and, when x's domain changed, pushing
    * the other arcs into x keeps the worklist invariant.
    */
  lemma WorklistMaintained(cw: Crossword, start: Domains, before: Domains, after: Domains, x: Variable, y: Variable,
                           revised: bool, popped: seq<Arc>, rest: seq<Arc>, queue: seq<Arc>, covered: bool,
                           stable: bool)
    requires WellFormed(cw) && |popped| > 0 && popped[|popped| - 1] == (x, y) && rest == popped[..|popped| - 1]
    requires WorklistInvariant(cw, start, before, popped, covered, stable) && IsArc(cw, (x, y))
    requires after == before[x := Revised(before[x], before[y], Overlap(cw, x, y))]
    requires revised <==> after[x] != before[x]
    requires revised ==> after[x] != {}
    requires !revised ==> queue == rest
    requires revised ==> forall p :: p in queue <==> p in rest || (p.1 == x && p.0 in Neighbors(cw, x) && p.0 != y)
    requires forall p :: p in queue && p !in rest ==> IsArc(cw, p)
    requires stable ==> !revised
    ensures WorklistInvariant(cw, start, after, queue, covered, stable)
    ensures !revised ==> after == before
  {
    assert popped == rest + [(x, y)];
    RevisionStep(cw, start, before, x, y);
    if covered {
      WorklistStep(cw, before, after, x, y, revised, popped, rest, queue);
    }
  }

  // ---------------------------------------------------------------------------
  // Assignments
  // ---------------------------------------------------------------------------

  /** No word is used for two slots. */
  predicate DistinctWords(a: Assignment)
  {
    forall u, v :: u in a && v in a && u != v ==> a[u] != a[v]
  }

  /** Every assigned word has its slot's length. */
  predicate RightLengths(a: Assignment)
  {
    forall v :: v in a ==> |a[v]| == v.length
  }

  /** Every pair of assigned crossing slots puts the same letter in the shared cell. */
  predicate Agrees(cw: Crossword, a: Assignment)
  {
    forall x, y :: x in a && y in a && y in Neighbors(cw, x) ==> Agree(a[x], a[y], Overlap(cw, x, y))
  }

  /** Every assigned word is a candidate of its slot. */
  predicate Within(a: Assignment, d: Domains)
  {
    forall v :: v in a ==> v in d && a[v] in d[v]
  }

  /** s agrees with a wherever a assigns a word. */
  predicate Extends(s: Assignment, a: Assignment)
  {
    a.Keys <= s.Keys && forall v :: v in a ==> s[v] == a[v]
  }

  /** An assignment has as many distinct words as slots exactly when no word repeats. */
  lemma {:induction false} DistinctIffValuesCount(a: Assignment)
    ensures |a.Values| <= |a.Keys|
    ensures |a.Values| == |a.Keys| <==> DistinctWords(a)
    decreases |a.Keys|
  {
    if a.Keys != {} {
      var k :| k in a.Keys;
      var b := map u | u in a && u != k :: a[u];
      assert b.Keys == a.Keys - {k};
      DistinctIffValuesCount(b);
      if a[k] in b.Values {
        RepeatedWord(a, k, b);
      } else {
        NewWord(a, k, b);
      }
    }
  }

  /** Adding slot k with a word already used keeps the words and breaks distinctness. */
  lemma RepeatedWord(a: Assignment, k: Variable, b: Assignment)
    requires k in a && b == map u | u in a && u != k :: a[u]
    requires a[k] in b.Values
    ensures a.Values == b.Values && !DistinctWords(a)
  {
    var u :| u in b && b[u] == a[k];
    forall w | w in a.Values ensures w in b.Values {
      var t :| t in a && a[t] == w;
      if t == k {
        assert b[u] == w;
      } else {
        assert b[t] == w;
      }
    }
    assert u in a && k in a && u != k && a[u] == a[k];
  }

  /** Adding slot k with a new word adds that word and keeps distinctness as it was. */
  lemma NewWord(a: Assignment, k: Variable, b: Assignment)
    requires k in a && b == map u | u in a && u != k :: a[u]
    requires a[k] !in b.Values
    ensures a.Values == b.Values + {a[k]}
    ensures DistinctWords(a) <==> DistinctWords(b)
  {
    forall w | w in a.Values ensures w in b.Values + {a[k]} {
      var t :| t in a && a[t] == w;
      if t != k {
        assert b[t] == w;
      }
    }
    if DistinctWords(b) {
      forall u, v | u in a && v in a && u != v ensures a[u] != a[v] {
        if u != k && v != k {
          assert b[u] != b[v];
        } else if u == k {
          assert a[v] == b[v];
        } else {
          assert a[u] == b[u];
        }
      }
    }
  }

  /**
    * The consistency check as the solver computes it: no word used twice and every
    * word of its slot's length. Its scan of crossing slots answers True on a
    * conflicting letter as well, so a conflict never makes it fail.
    */
  function Consistent(a: Assignment): (b: bool)
    ensures b <==> DistinctWords(a) && RightLengths(a)
  {
    DistinctIffValuesCount(a);
    |a.Values| == |a.Keys| && forall v :: v in a ==> |a[v]| == v.length
  }

  /** The consistency the solver's documentation describes: Consistent, and no conflicting letter. */
  predicate ConsistentIntended(cw: Crossword, a: Assignment)
  {
    DistinctWords(a) && RightLengths(a) && Agrees(cw, a)
  }

  /** A solution of the puzzle: every slot filled, consistently. */
  predicate Solution(cw: Crossword, a: Assignment)
  {
    a.Keys == cw.variables && ConsistentIntended(cw, a)
  }

  /**
    * The check as written accepts an assignment whose crossing words disagree:
    * two slots of length 2 crossing in their first cell, filled with "ab" and "cd".
    */
  lemma ConsistentMissesConflict()
    ensures exists cw: Crossword, a: Assignment ::
      WellFormed(cw) && a.Keys == cw.variables && Consistent(a) && !ConsistentIntended(cw, a)
  {
    ExampleGridWellFormed();
    ExampleFillPasses();
    ExampleFillConflicts();
    assert ExampleFill.Keys == ExampleGrid.variables;
  }

  /** The slots and the fill of the counterexample to the check as written. */
  const ExampleAcross := Variable(0, 0, Across, 2)
  const ExampleDown := Variable(0, 0, Down, 2)
  const ExampleGrid := Crossword({ExampleAcross, ExampleDown},
    map[(ExampleAcross, ExampleDown) := Some((0, 0)), (ExampleDown, ExampleAcross) := Some((0, 0))], {"ab", "cd"})
  const ExampleFill: Assignment := map[ExampleAcross := "ab", ExampleDown := "cd"]

  /** The counterexample grid is well formed. */
  lemma ExampleGridWellFormed()
    ensures WellFormed(ExampleGrid)
  {
    assert Mirrored(ExampleGrid, ExampleAcross, ExampleDown) && Mirrored(ExampleGrid, ExampleDown, ExampleAcross);
  }

  /** The counterexample fill passes the check as written. */
  lemma ExampleFillPasses()
    ensures Consistent(ExampleFill)
  {
    assert DistinctWords(ExampleFill) && RightLengths(ExampleFill);
  }

  /** The counterexample fill puts different letters in the shared cell. */
  lemma ExampleFillConflicts()
    ensures !ConsistentIntended(ExampleGrid, ExampleFill)
  {
    assert ExampleDown in Neighbors(ExampleGrid, ExampleAcross);
    assert !Agree(ExampleFill[ExampleAcross], ExampleFill[ExampleDown], Overlap(ExampleGrid, ExampleAcross, ExampleDown));
  }

  /** The intended check is stronger than the one as written. */
  lemma IntendedIsConsistent(cw: Crossword, a: Assignment)
    requires ConsistentIntended(cw, a)
    ensures Consistent(a)
  {
  }

  /** Dropping slots from an assignment that passes the intended check keeps it passing. */
  lemma IntendedHereditary(cw: Crossword, s: Assignment, a: Assignment)
    requires Extends(s, a) && ConsistentIntended(cw, s)
    ensures ConsistentIntended(cw, a)
  {
    forall x, y | x in a && y in a && y in Neighbors(cw, x)
      ensures Agree(a[x], a[y], Overlap(cw, x, y))
    {
      assert Agree(s[x], s[y], Overlap(cw, x, y));
    }
  }

  /** Dropping slots from an assignment that passes the check as written keeps it passing. */
  lemma ConsistentHereditary(s: Assignment, a: Assignment)
    requires Extends(s, a) && Consistent(s)
    ensures Consistent(a)
  {
    forall u, v | u in a && v in a && u != v ensures a[u] != a[v] {
      assert s[u] != s[v];
    }
  }

  /** Taking the revised domain of x keeps every solution whose words are candidates. */
  lemma RevisedKeepsSolution(cw: Crossword, d: Domains, x: Variable, y: Variable, sol: Assignment)
    requires WellFormed(cw) && IsArc(cw, (x, y)) && x in d && y in d
    requires Solution(cw, sol) && Within(sol, d)
    ensures Within(sol, d[x := Revised(d[x], d[y], Overlap(cw, x, y))])
  {
    assert Agree(sol[x], sol[y], Overlap(cw, x, y));
  }

  /**
    * The answer revise returns is the verdict on the last word it examined. Revising
    * {"a", "b"} against {"a"} at their first letters removes "b"; when "a" comes
    * last, its verdict is "kept", so a revision goes unreported.
    */
  lemma LastFlagMissesRemoval()
    ensures var dx, dy, ov := {"a", "b"}, {"a"}, (0, 0);
      "a" in dx && Supported("a", dy, ov) && Revised(dx, dy, ov) != dx
    ensures var dx, dy, ov := {"a", "b"}, {"a"}, (0, 0);
      exists last :: last in dx && (last !in Revised(dx, dy, ov)) == false && Revised(dx, dy, ov) != dx
  {
    var dx, dy, ov := {"a", "b"}, {"a"}, (0, 0);
    assert Agree("a", "a", ov);
    assert !Supported("b", dy, ov) by {
      forall wy | wy in dy ensures !Agree("b", wy, ov) {
        assert wy == "a";
      }
    }
    assert "b" !in Revised(dx, dy, ov);
    assert "a" in Revised(dx, dy, ov);
  }

  /** A subset of the same size is the whole set. */
  lemma SubsetSameSize<T>(a: set<T>, b: set<T>)
    requires a <= b && |a| == |b|
    ensures a == b
  {
    assert b == a + (b - a);
  }

  /**
    * The completeness test as the solver computes it: as many entries as slots
    * (its other test, as many values as entries, always holds). On an assignment
    * to slots of the puzzle it means that every slot is filled.
    */
  function AssignmentComplete(cw: Crossword, a: Assignment): (b: bool)
    ensures a.Keys <= cw.variables ==> (b <==> a.Keys == cw.variables)
  {
    assert a.Keys <= cw.variables && |a.Keys| == |cw.variables| ==> a.Keys == cw.variables by {
      if a.Keys <= cw.variables && |a.Keys| == |cw.variables| {
        SubsetSameSize(a.Keys, cw.variables);
      }
    }
    |a.Keys| == |cw.variables|
  }
}
