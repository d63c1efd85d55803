/** The crossword generator: a constraint-satisfaction solver that fills the
    slots of a crossword grid with words of a vocabulary. Slots are the
    variables, words the values; a slot takes words of its own length
    (the unary constraint) and two crossing slots agree on their shared
    letter (the binary constraint). The grid geometry (slots and crossing
    positions) is an input to the solver. */
module Crossword {
  import opened Wrappers

  // ---- Puzzle and domains ----

  datatype Direction = Across | Down

  /** A slot: its first cell, its direction and its length. Slots are
      compared by value. */
  datatype Variable = Variable(i: int, j: int, direction: Direction, length: nat)

  type Word = string

  /** A crossing position (px, py): letter px of the first slot lies on
      letter py of the second. */
  type Overlap = (nat, nat)

  type Arc = (Variable, Variable)

  /** The geometry and the vocabulary the solver is given: the slots, the
      words, and for each ordered pair of distinct slots their crossing
      position, or None when they do not cross. */
  datatype Puzzle = Puzzle(variables: set<Variable>, words: set<Word>, overlaps: map<Arc, Option<Overlap>>)

  function Swap(o: Option<Overlap>): Option<Overlap> {
    match o
    case None => None
    case Some(p) => Some((p.1, p.0))
  }

  /** What the solver takes for granted about its input: a crossing entry for
      every ordered pair of distinct slots and for nothing else, positions
      inside both slots, and the entry for (y, x) the swap of the one for
      (x, y). */
  ghost predicate WellFormed(cw: Puzzle) {
    && (forall x, y :: (x, y) in cw.overlaps <==> x in cw.variables && y in cw.variables && x != y)
    && (forall x, y :: (x, y) in cw.overlaps && cw.overlaps[(x, y)].Some? ==>
          cw.overlaps[(x, y)].value.0 < x.length && cw.overlaps[(x, y)].value.1 < y.length)
    && (forall x, y :: (x, y) in cw.overlaps ==> cw.overlaps[(y, x)] == Swap(cw.overlaps[(x, y)]))
  }

  /** An arc the solver may revise: an ordered pair of distinct slots. */
  predicate IsArc(cw: Puzzle, a: Arc) {
    a.0 in cw.variables && a.1 in cw.variables && a.0 != a.1
  }

  /** The slots crossing x. */
  function Neighbors(cw: Puzzle, x: Variable): (r: set<Variable>)
    ensures forall y :: y in r ==> y in cw.variables && y != x
  {
    set y | y in cw.variables && y != x && (x, y) in cw.overlaps && cw.overlaps[(x, y)].Some?
  }

  /** The candidate words of each slot. */
  type Domains = map<Variable, set<Word>>

  /** d has a domain for each slot, drawn from the vocabulary. */
  ghost predicate Fits(cw: Puzzle, d: Domains) {
    d.Keys == cw.variables && forall v :: v in d ==> d[v] <= cw.words
  }

  /** Every word at either end of a crossing is long enough to have the
      crossing letter: what indexing a word at its crossing position needs. */
  ghost predicate Indexable(cw: Puzzle, d: Domains) {
    forall x, y, w :: (x, y) in cw.overlaps && cw.overlaps[(x, y)].Some? && x in d && w in d[x] ==>
      cw.overlaps[(x, y)].value.0 < |w|
  }

  /** Every word has its slot's length. */
  ghost predicate NodeConsistent(d: Domains) {
    forall v, w :: v in d && w in d[v] ==> |w| == v.length
  }

  /** Node consistency gives every crossing letter a place in its word. */
  lemma NodeConsistentIndexable(cw: Puzzle, d: Domains)
    requires WellFormed(cw) && NodeConsistent(d)
    ensures Indexable(cw, d)
  {
    forall x, y, w | (x, y) in cw.overlaps && cw.overlaps[(x, y)].Some? && x in d && w in d[x]
      ensures cw.overlaps[(x, y)].value.0 < |w|
    {
      assert |w| == x.length;
    }
  }

  /** d2 keeps the slots of d1 and only drops words. */
  ghost predicate Shrunk(d1: Domains, d2: Domains) {
    d2.Keys == d1.Keys && forall v :: v in d1 ==> d2[v] <= d1[v]
  }

  /** No slot whose domain is empty in d had a non-empty domain in d0. */
  ghost predicate Unemptied(d0: Domains, d: Domains) {
    forall v :: v in d && d[v] == {} ==> v in d0 && d0[v] == {}
  }

  /** Shrinking composes, and so does (not) emptying a domain. */
  lemma ShrunkTrans(d0: Domains, d1: Domains, d2: Domains)
    requires Shrunk(d0, d1) && Shrunk(d1, d2)
    ensures Shrunk(d0, d2)
    ensures Unemptied(d0, d1) && Unemptied(d1, d2) ==> Unemptied(d0, d2)
    ensures !Unemptied(d1, d2) ==> !Unemptied(d0, d2)
  {
    if !Unemptied(d1, d2) {
      var v :| v in d2 && d2[v] == {} && !(v in d1 && d1[v] == {});
      assert d1[v] <= d0[v];
    }
  }

  lemma ShrunkFits(cw: Puzzle, d1: Domains, d2: Domains)
    requires Fits(cw, d1) && Shrunk(d1, d2)
    ensures Fits(cw, d2)
  {
  }

  /** Dropping words keeps the words long enough. */
  lemma ShrunkIndexable(cw: Puzzle, d1: Domains, d2: Domains)
    requires Indexable(cw, d1) && Shrunk(d1, d2)
    ensures Indexable(cw, d2)
  {
    forall x, y, w | (x, y) in cw.overlaps && cw.overlaps[(x, y)].Some? && x in d2 && w in d2[x]
      ensures cw.overlaps[(x, y)].value.0 < |w|
    {
      assert w in d1[x];
    }
  }

  /** Narrowing node-consistent domains keeps them node consistent. */
  lemma ShrunkNodeConsistent(d1: Domains, d2: Domains)
    requires NodeConsistent(d1) && Shrunk(d1, d2)
    ensures NodeConsistent(d2)
  {
    forall v, w | v in d2 && w in d2[v]
      ensures |w| == v.length
    {
      assert w in d1[v];
    }
  }

  /** The (slot, word) pairs of d: they only decrease while AC-3 runs. */
  ghost function Pairs(d: Domains): set<(Variable, Word)> {
    set v, w | v in d && w in d[v] :: (v, w)
  }

  /** Dropping a word from one domain removes a pair. */
  lemma PairsShrink(d: Domains, x: Variable, s: set<Word>)
    requires x in d && s < d[x]
    ensures Pairs(d[x := s]) < Pairs(d)
  {
    var w :| w in d[x] && w !in s;
    assert (x, w) in Pairs(d);
    forall p | p in Pairs(d[x := s])
      ensures p in Pairs(d)
    {
      assert p.0 in d && p.1 in d[p.0];
    }
  }

  /** Narrowing one domain is a shrink. */
  lemma UpdateShrunk(d: Domains, x: Variable, s: set<Word>)
    requires x in d && s <= d[x]
    ensures Shrunk(d, d[x := s])
  {
  }

  // ---- Arc consistency of one arc (revise) ----

  /** Letter p of w equals letter q of v. */
  predicate Agree(w: Word, p: nat, v: Word, q: nat) {
    p < |w| && q < |v| && w[p] == v[q]
  }

  /** Some word of dy agrees with w at the crossing (p, q). */
  predicate Supported(w: Word, p: nat, dy: set<Word>, q: nat) {
    exists v :: v in dy && Agree(w, p, v, q)
  }

  /** The words of dx that keep a partner in dy at the crossing (p, q). */
  function Revised(dx: set<Word>, p: nat, dy: set<Word>, q: nat): set<Word> {
    set w | w in dx && Supported(w, p, dy, q)
  }

  /** The revised arc is consistent afterwards. */
  lemma RevisedConsistent(cw: Puzzle, d: Domains, x: Variable, y: Variable)
    requires x in d && y in d && x != y
    requires (x, y) in cw.overlaps && cw.overlaps[(x, y)].Some?
    ensures var (p, q) := cw.overlaps[(x, y)].value;
            ArcConsistent(cw, d[x := Revised(d[x], p, d[y], q)], x, y)
  {
  }

  /** Revising keeps exactly the supported words, so a second revision
      against the same partner domain removes nothing. */
  lemma ReviseIdempotent(dx: set<Word>, p: nat, dy: set<Word>, q: nat)
    ensures Revised(Revised(dx, p, dy, q), p, dy, q) == Revised(dx, p, dy, q)
    ensures Revised(dx, p, dy, q) <= dx
  {
    var r := Revised(dx, p, dy, q);
    assert forall w :: w in r ==> Supported(w, p, dy, q);
  }

  /** Revising x against y never breaks the reverse arc (y, x): a word of x
      dropped for lack of a partner in y was nobody's partner in y. */
  lemma RevisedKeepsReverse(dx: set<Word>, p: nat, dy: set<Word>, q: nat)
    requires forall v :: v in dy ==> Supported(v, q, dx, p)
    ensures forall v :: v in dy ==> Supported(v, q, Revised(dx, p, dy, q), p)
  {
    forall v | v in dy
      ensures Supported(v, q, Revised(dx, p, dy, q), p)
    {
      var w :| w in dx && Agree(v, q, w, p);
      assert Agree(w, p, v, q);
      assert w in Revised(dx, p, dy, q);
    }
  }

  /** Narrowing the domain of x keeps consistent every arc that does not
      end at x. */
  lemma ShrinkKeepsConsistent(cw: Puzzle, d: Domains, x: Variable, s: set<Word>, u: Variable, v: Variable)
    requires x in d && s <= d[x] && v != x && ArcConsistent(cw, d, u, v)
    ensures ArcConsistent(cw, d[x := s], u, v)
  {
  }

  // ---- The AC-3 queue ----

  /** Arc (x, y) is consistent: every word of x has a partner in y. */
  ghost predicate ArcConsistent(cw: Puzzle, d: Domains, x: Variable, y: Variable) {
    (x, y) in cw.overlaps && cw.overlaps[(x, y)].Some? && x in d && y in d ==>
      forall w :: w in d[x] ==> Supported(w, cw.overlaps[(x, y)].value.0, d[y], cw.overlaps[(x, y)].value.1)
  }

  /** Every arc of seen that is no longer waiting in the queue is consistent:
      the invariant of AC-3. */
  ghost predicate Settled(cw: Puzzle, d: Domains, seen: set<Arc>, queue: seq<Arc>) {
    forall x, y :: (x, y) in seen && (x, y) !in queue ==> ArcConsistent(cw, d, x, y)
  }

  /** After AC-3 revises (x, y) and queues (z, x) for the other neighbours z
      of x, every arc that is not waiting is still consistent. */
  lemma SettledAfterRevise(cw: Puzzle, d: Domains, d2: Domains, x: Variable, y: Variable,
                           seen: set<Arc>, queue: seq<Arc>, more: seq<Arc>)
    requires WellFormed(cw) && x in d && y in d && IsArc(cw, (x, y))
    requires Settled(cw, d, seen, [(x, y)] + queue)
    requires cw.overlaps[(x, y)].None? ==> d2 == d
    requires cw.overlaps[(x, y)].Some? ==>
               d2 == d[x := Revised(d[x], cw.overlaps[(x, y)].value.0, d[y], cw.overlaps[(x, y)].value.1)]
    requires d2[x] != d[x] ==> forall z :: z in Neighbors(cw, x) && z != y ==> (z, x) in more
    ensures Settled(cw, d2, seen, queue + more)
  {
    forall u, v | (u, v) in seen && (u, v) !in queue + more
      ensures ArcConsistent(cw, d2, u, v)
    {
      if (u, v) != (x, y) {
        assert (u, v) !in [(x, y)] + queue;
      }
      if cw.overlaps[(x, y)].Some? {
        var (p, q) := cw.overlaps[(x, y)].value;
        ReviseIdempotent(d[x], p, d[y], q);
        if (u, v) == (x, y) {
          RevisedConsistent(cw, d, x, y);
        } else if v != x {
          ShrinkKeepsConsistent(cw, d, x, d2[x], u, v);
        } else if d2[x] == d[x] {
          assert d2 == d;
        } else if u == y {
          assert cw.overlaps[(y, x)] == Some((q, p));
          RevisedKeepsReverse(d[x], p, d[y], q);
        } else if (u, x) in cw.overlaps && cw.overlaps[(u, x)].Some? {
          assert false;
        }
      }
    }
  }

  /** Every queued pair is an arc of the puzzle. */
  ghost predicate AllArcs(cw: Puzzle, queue: seq<Arc>) {
    forall k :: 0 <= k < |queue| ==> IsArc(cw, queue[k])
  }

  /** Popping the head of a queue of arcs and appending arcs of the puzzle
      leaves a queue of arcs of the puzzle. */
  lemma Dequeue(cw: Puzzle, queue: seq<Arc>, more: seq<Arc>)
    requires |queue| > 0 && AllArcs(cw, queue) && AllArcs(cw, more)
    ensures AllArcs(cw, queue[1..] + more)
    ensures queue == [queue[0]] + queue[1..]
  {
  }

  /** No arc appears in both orientations. */
  ghost predicate OneWay(arcs: seq<Arc>) {
    forall x, y :: (x, y) in arcs ==> (y, x) !in arcs
  }

  /** No arc appears twice. */
  ghost predicate DistinctArcs(arcs: seq<Arc>) {
    forall i, j :: 0 <= i < j < |arcs| ==> arcs[i] != arcs[j]
  }

  // ---- Assignments ----

  /** Every slot of the puzzle has a word. */
  predicate IsComplete(cw: Puzzle, m: map<Variable, Word>) {
    cw.variables <= m.Keys
  }

  /** No word fills two slots. */
  ghost predicate DistinctWords(m: map<Variable, Word>) {
    forall x, y :: x in m && y in m && x != y ==> m[x] != m[y]
  }

  /** Every word has its slot's length. */
  ghost predicate RightLengths(m: map<Variable, Word>) {
    forall x :: x in m ==> |m[x]| == x.length
  }

  /** The word of x agrees at every crossing with the words of the other
      filled slots. */
  ghost predicate AgreesWithAll(cw: Puzzle, m: map<Variable, Word>, x: Variable)
    requires x in m
  {
    forall y :: y in m && y != x && (x, y) in cw.overlaps && cw.overlaps[(x, y)].Some? ==>
      Agree(m[x], cw.overlaps[(x, y)].value.0, m[y], cw.overlaps[(x, y)].value.1)
  }

  /** A partial fill of the grid that breaks no constraint: distinct words,
      right lengths, equal letters at every crossing. */
  ghost predicate IsConsistent(cw: Puzzle, m: map<Variable, Word>) {
    DistinctWords(m) && RightLengths(m) && forall x :: x in m ==> AgreesWithAll(cw, m, x)
  }

  /** m agrees with m0 on every slot m0 fills. */
  ghost predicate Extends(m: map<Variable, Word>, m0: map<Variable, Word>) {
    forall v :: v in m0 ==> v in m && m[v] == m0[v]
  }

  /** Consistency is closed under dropping slots: every part of a
      consistent assignment is consistent. */
  lemma ConsistentPart(cw: Puzzle, m: map<Variable, Word>, m0: map<Variable, Word>)
    requires IsConsistent(cw, m) && Extends(m, m0)
    ensures IsConsistent(cw, m0)
  {
    forall x | x in m0
      ensures AgreesWithAll(cw, m0, x)
    {
      assert AgreesWithAll(cw, m, x);
    }
  }

  /** A filled grid: every slot holds a word of its domain and no
      constraint is broken. */
  ghost predicate Solution(cw: Puzzle, d: Domains, m: map<Variable, Word>) {
    m.Keys == cw.variables && IsConsistent(cw, m) && forall v :: v in m ==> v in d && m[v] in d[v]
  }

  /** The words of a solution over fitting domains come from the vocabulary
      and have their slots' lengths. */
  lemma SolutionFits(cw: Puzzle, d: Domains, m: map<Variable, Word>)
    requires Solution(cw, d, m) && Fits(cw, d)
    ensures forall v :: v in m ==> m[v] in cw.words && |m[v]| == v.length
  {
    forall v | v in m
      ensures m[v] in cw.words && |m[v]| == v.length
    {
      assert m[v] in d[v];
    }
  }

  /** Every solution over d0 is still a solution over d: narrowing d0 to d
      lost no way of filling the grid. */
  ghost predicate KeepsSolutions(cw: Puzzle, d0: Domains, d: Domains) {
    forall m :: Solution(cw, d0, m) ==> Solution(cw, d, m)
  }

  /** Revising an arc keeps every solution: the word a solution gives x has
      the word it gives y as a partner. */
  lemma RevisedKeepsSolutions(cw: Puzzle, d: Domains, x: Variable, y: Variable)
    requires WellFormed(cw) && x in d && y in d
    requires (x, y) in cw.overlaps && cw.overlaps[(x, y)].Some?
    ensures var (p, q) := cw.overlaps[(x, y)].value;
            KeepsSolutions(cw, d, d[x := Revised(d[x], p, d[y], q)])
  {
    var (p, q) := cw.overlaps[(x, y)].value;
    var d2 := d[x := Revised(d[x], p, d[y], q)];
    forall m | Solution(cw, d, m)
      ensures Solution(cw, d2, m)
    {
      assert x in m && y in m && x != y;
      assert AgreesWithAll(cw, m, x);
      assert Supported(m[x], p, d[y], q);
    }
  }

  /** Keeping solutions composes. */
  lemma KeepsSolutionsTrans(cw: Puzzle, d0: Domains, d1: Domains, d2: Domains)
    requires KeepsSolutions(cw, d0, d1) && KeepsSolutions(cw, d1, d2)
    ensures KeepsSolutions(cw, d0, d2)
  {
  }

  /** Domains that kept every solution of d0 yet have a slot newly emptied
      show that d0 had no solution at all: a failed AC-3 proves the puzzle
      unsolvable. */
  lemma EmptiedNoSolution(cw: Puzzle, d0: Domains, d: Domains)
    requires Fits(cw, d) && KeepsSolutions(cw, d0, d) && !Unemptied(d0, d)
    ensures forall m :: !Solution(cw, d0, m)
  {
    var v :| v in d && d[v] == {} && !(v in d0 && d0[v] == {});
    assert v in cw.variables;
  }

  // ---- Ordering a slot's words (least-constraining value) ----

  /** The words of dy that a word w placed at the crossing (p, q) rules out. */
  function Clashes(w: Word, p: nat, dy: set<Word>, q: nat): set<Word> {
    set v | v in dy && !Agree(w, p, v, q)
  }

  /** How many words of neighbour y the word w of x rules out. */
  ghost function ClashCount(cw: Puzzle, d: Domains, x: Variable, w: Word, y: Variable): nat {
    if (x, y) in cw.overlaps && cw.overlaps[(x, y)].Some? && y in d then
      |Clashes(w, cw.overlaps[(x, y)].value.0, d[y], cw.overlaps[(x, y)].value.1)|
    else
      0
  }

  /** How many words of the neighbours ys of x the word w rules out. */
  ghost function RuleOut(cw: Puzzle, d: Domains, x: Variable, w: Word, ys: set<Variable>): nat
    decreases ys
  {
    if ys == {} then 0
    else
      var y :| y in ys;
      ClashCount(cw, d, x, w, y) + RuleOut(cw, d, x, w, ys - {y})
  }

  /** The sum does not depend on which neighbour is taken first. */
  lemma {:induction false} RuleOutRemove(cw: Puzzle, d: Domains, x: Variable, w: Word, ys: set<Variable>, y: Variable)
    requires y in ys
    ensures RuleOut(cw, d, x, w, ys) == ClashCount(cw, d, x, w, y) + RuleOut(cw, d, x, w, ys - {y})
    decreases ys
  {
    var z :| z in ys && RuleOut(cw, d, x, w, ys) == ClashCount(cw, d, x, w, z) + RuleOut(cw, d, x, w, ys - {z});
    if z != y {
      RuleOutRemove(cw, d, x, w, ys - {z}, y);
      RuleOutRemove(cw, d, x, w, ys - {y}, z);
      assert ys - {z} - {y} == ys - {y} - {z};
    }
  }

  /** The least-constraining-value score of w: how many words of all the
      neighbours of x it rules out. */
  ghost function Constraining(cw: Puzzle, d: Domains, x: Variable, w: Word): nat {
    RuleOut(cw, d, x, w, Neighbors(cw, x))
  }

  /** s is ordered by non-decreasing score. */
  ghost predicate SortedBy<T>(s: seq<T>, score: map<T, nat>)
    requires forall k :: 0 <= k < |s| ==> s[k] in score
  {
    forall i, j :: 0 <= i < j < |s| ==> score[s[i]] <= score[s[j]]
  }

  /** Inserts w into s after the leading elements of equal or smaller
      score. */
  function InsertByScore<T>(w: T, s: seq<T>, score: map<T, nat>): (r: seq<T>)
    requires w in score && forall k :: 0 <= k < |s| ==> s[k] in score
    ensures multiset(r) == multiset(s) + multiset{w}
    ensures forall k :: 0 <= k < |r| ==> r[k] in score
    ensures r[0] == w || (|s| > 0 && r[0] == s[0])
  {
    if s == [] || score[w] < score[s[0]] then
      [w] + s
    else
      assert s == [s[0]] + s[1..];
      [s[0]] + InsertByScore(w, s[1..], score)
  }

  /** Insertion into a sorted sequence keeps it sorted. */
  lemma {:induction false} InsertSorted<T>(w: T, s: seq<T>, score: map<T, nat>)
    requires w in score && forall k :: 0 <= k < |s| ==> s[k] in score
    requires SortedBy(s, score)
    ensures SortedBy(InsertByScore(w, s, score), score)
  {
    if s != [] && score[w] >= score[s[0]] {
      var rest := InsertByScore(w, s[1..], score);
      InsertSorted(w, s[1..], score);
      assert score[s[0]] <= score[rest[0]];
      assert InsertByScore(w, s, score) == [s[0]] + rest;
    }
  }

  /** A stable sort of s by score: the model of sorting the score table by
      its values. */
  function SortByScore<T>(s: seq<T>, score: map<T, nat>): (r: seq<T>)
    requires forall k :: 0 <= k < |s| ==> s[k] in score
    ensures multiset(r) == multiset(s)
    ensures forall k :: 0 <= k < |r| ==> r[k] in score
    ensures SortedBy(r, score)
  {
    if s == [] then []
    else
      assert s == s[..|s| - 1] + [s[|s| - 1]];
      var sorted := SortByScore(s[..|s| - 1], score);
      InsertSorted(s[|s| - 1], sorted, score);
      InsertByScore(s[|s| - 1], sorted, score)
  }

  // ---- Backtracking search ----

  /** What a backtracking search from m0 may leave behind in m: m0 itself
      when nothing was found; otherwise a complete extension of m0 that is
      consistent (unless m0 was already complete), whose new words come from
      their slots' domains. */
  ghost predicate Searched(cw: Puzzle, d: Domains, m0: map<Variable, Word>, m: map<Variable, Word>, found: bool) {
    && m.Keys <= cw.variables
    && (!found ==> m == m0)
    && (found ==> IsComplete(cw, m) && (IsConsistent(cw, m) || m == m0))
    && (forall v :: v in m0 ==> v in m && m[v] == m0[v])
    && (forall v :: v in m && v !in m0 ==> v in d && m[v] in d[v])
  }

  /** A solution found after a consistent first step from m0 is a solution
      found from m0. */
  lemma SearchedStep(cw: Puzzle, d: Domains, m0: map<Variable, Word>, x: Variable, w: Word, m: map<Variable, Word>)
    requires x !in m0 && x in d && w in d[x] && IsConsistent(cw, m0[x := w])
    requires Searched(cw, d, m0[x := w], m, true)
    ensures Searched(cw, d, m0, m, true)
  {
    forall v | v in m && v !in m0
      ensures v in d && m[v] in d[v]
    {
      if v == x {
        assert m[v] == m0[x := w][x];
      }
    }
  }

  /** A search from the empty assignment that succeeds yields a solution. */
  lemma SearchedSolution(cw: Puzzle, d: Domains, m: map<Variable, Word>)
    requires Searched(cw, d, map[], m, true)
    ensures Solution(cw, d, m)
  {
    assert IsConsistent(cw, map[]);
  }

  /** Some solution over d extends m0. */
  ghost predicate Extendable(cw: Puzzle, d: Domains, m0: map<Variable, Word>) {
    exists m :: Solution(cw, d, m) && Extends(m, m0)
  }

  /** Every slot crosses another: on such puzzles every slot gets its whole
      domain ordered for the search. */
  ghost predicate AllCross(cw: Puzzle) {
    forall v :: v in cw.variables ==> Neighbors(cw, v) != {}
  }

  /** Only a consistent assignment extends to a solution: what lets the
      search prune on an inconsistent one. */
  lemma ExtendableConsistent(cw: Puzzle, d: Domains, m0: map<Variable, Word>)
    ensures Extendable(cw, d, m0) ==> IsConsistent(cw, m0)
  {
    if Extendable(cw, d, m0) {
      var m :| Solution(cw, d, m) && Extends(m, m0);
      ConsistentPart(cw, m, m0);
    }
  }

  /** No word of ws, given to slot x, extends m0 to a solution over d: what
      the words tried so far show when each of their searches failed. */
  ghost predicate NoneExtends(cw: Puzzle, d: Domains, m0: map<Variable, Word>, x: Variable, ws: seq<Word>)
    decreases |ws|
  {
    |ws| > 0 ==> NoneExtends(cw, d, m0, x, ws[..|ws| - 1]) && !Extendable(cw, d, m0[x := ws[|ws| - 1]])
  }

  /** A failed word extends the list of failed words. */
  lemma NoneExtendsStep(cw: Puzzle, d: Domains, m0: map<Variable, Word>, x: Variable, ws: seq<Word>, w: Word)
    requires NoneExtends(cw, d, m0, x, ws) && !Extendable(cw, d, m0[x := w])
    ensures NoneExtends(cw, d, m0, x, ws + [w])
  {
    assert (ws + [w])[..|ws|] == ws;
  }

  lemma {:induction false} NoneExtendsMember(cw: Puzzle, d: Domains, m0: map<Variable, Word>, x: Variable, ws: seq<Word>, w: Word)
    requires NoneExtends(cw, d, m0, x, ws) && w in ws
    ensures !Extendable(cw, d, m0[x := w])
    decreases |ws|
  {
    if w != ws[|ws| - 1] {
      assert ws == ws[..|ws| - 1] + [ws[|ws| - 1]];
      NoneExtendsMember(cw, d, m0, x, ws[..|ws| - 1], w);
    }
  }

  /** Once every word of x's domain has been tried without success, no
      solution extends m0. */
  lemma NoneExtendsAll(cw: Puzzle, d: Domains, m0: map<Variable, Word>, x: Variable, ws: seq<Word>)
    requires x in cw.variables && x !in m0 && x in d
    requires NoneExtends(cw, d, m0, x, ws) && multiset(ws) == multiset(d[x])
    ensures !Extendable(cw, d, m0)
  {
    ExtendableSplit(cw, d, m0, x);
    forall w | w in d[x]
      ensures !Extendable(cw, d, m0[x := w])
    {
      assert w in multiset(ws);
      NoneExtendsMember(cw, d, m0, x, ws, w);
    }
  }

  /** Splitting on the word of an unfilled slot x: a solution extending m0
      extends m0 with some word of x's domain, so when none of them extends
      to a solution, neither does m0. */
  lemma ExtendableSplit(cw: Puzzle, d: Domains, m0: map<Variable, Word>, x: Variable)
    requires x in cw.variables && x !in m0
    ensures Extendable(cw, d, m0) ==> x in d && exists w :: w in d[x] && Extendable(cw, d, m0[x := w])
  {
    if Extendable(cw, d, m0) {
      var m :| Solution(cw, d, m) && Extends(m, m0);
      assert Extends(m, m0[x := m[x]]);
    }
  }

  // ---- Generic facts about sets, maps and sequences ----

  /** Moving one element from the unvisited part to the visited part keeps
      the two a partition of the same set. */
  lemma VisitOne<T>(rest: set<T>, done: set<T>, v: T)
    requires rest !! done && v in rest
    ensures (rest - {v}) !! (done + {v}) && (rest - {v}) + (done + {v}) == rest + done
  {
  }

  /** Scoring one more element keeps the scored sequence a listing of the
      scored set. */
  lemma ListingStep<T>(order: seq<T>, done: set<T>, v: T)
    requires multiset(order) == multiset(done) && v !in done
    ensures multiset(order + [v]) == multiset(done + {v})
  {
  }

  /** Assigning one more key leaves fewer keys unassigned. */
  lemma FewerUnassigned<K, V>(ks: set<K>, m: map<K, V>, k: K, v: V)
    requires k in ks && k !in m
    ensures |ks - m[k := v].Keys| < |ks - m.Keys|
  {
    assert ks - m[k := v].Keys == (ks - m.Keys) - {k};
  }

  /** A prefix one longer is the prefix with the next element appended. */
  lemma PrefixStep<T>(s: seq<T>, i: nat)
    requires i < |s|
    ensures s[..i + 1] == s[..i] + [s[i]]
  {
  }

  /** The prefix as long as the sequence is the sequence. */
  lemma WholePrefix<T>(s: seq<T>)
    ensures s[..|s|] == s
  {
  }

  /** Assigning a fresh key and deleting it again restores the map. */
  lemma UpdateThenRemove<K, V>(m: map<K, V>, k: K, v: V)
    requires k !in m
    ensures m[k := v] - {k} == m
  {
    assert forall j :: j in m[k := v] - {k} <==> j in m;
  }

  // ---- The solver ----

  /** The partial assignment that backtracking extends and undoes in place;
      a solution is this same object, filled. */
  class Assignment {
    var entries: map<Variable, Word>

    constructor ()
      ensures entries == map[]
    {
      entries := map[];
    }
  }

  /** The solver: the puzzle it was given and the candidate words of each
      slot, which only ever shrink. */
  class CrosswordCreator {
    const crossword: Puzzle
    var domains: Domains

    ghost predicate Valid()
      reads this
    {
      WellFormed(crossword) && Fits(crossword, domains)
    }

    /** Every slot starts with the whole vocabulary. */
    constructor (cw: Puzzle)
      requires WellFormed(cw)
      ensures crossword == cw && Valid()
      ensures forall v :: v in cw.variables ==> domains[v] == cw.words
    {
      crossword := cw;
      domains := map v | v in cw.variables :: cw.words;
    }

    /** Take the words of removeSet out of the domain of v, one by one. */
    method RemoveWords(v: Variable, removeSet: set<Word>)
      requires v in domains && removeSet <= domains[v]
      modifies this
      ensures domains == old(domains)[v := old(domains[v]) - removeSet]
    {
      var rest := removeSet;
      assert old(domains[v]) - (removeSet - rest) == old(domains[v]);
      assert domains == old(domains)[v := old(domains[v])];
      while rest != {}
        invariant rest <= removeSet
        invariant domains == old(domains)[v := old(domains[v]) - (removeSet - rest)]
        decreases rest
      {
        var word :| word in rest;
        assert old(domains[v]) - (removeSet - (rest - {word})) == old(domains[v]) - (removeSet - rest) - {word};
        domains := domains[v := domains[v] - {word}];
        rest := rest - {word};
      }
      assert removeSet - rest == removeSet;
    }

    /** The words of v's domain whose length is not v's. */
    method WrongLength(v: Variable) returns (removeSet: set<Word>)
      requires v in domains
      ensures removeSet == set w | w in domains[v] && |w| != v.length
    {
      removeSet := {};
      var rest := domains[v];
      while rest != {}
        invariant rest <= domains[v]
        invariant removeSet == set w | w in domains[v] - rest && |w| != v.length
        decreases rest
      {
        var word :| word in rest;
        if |word| != v.length {
          removeSet := removeSet + {word};
        }
        rest := rest - {word};
      }
    }

    /** Drop from every domain the words whose length differs from the
        slot's, and keep every word of the right length. */
    method EnforceNodeConsistency()
      requires Valid()
      modifies this
      ensures Valid() && NodeConsistent(domains)
      ensures domains.Keys == old(domains).Keys
      ensures forall v :: v in domains ==> domains[v] == set w | w in old(domains[v]) && |w| == v.length
      ensures Shrunk(old(domains), domains) && KeepsSolutions(crossword, old(domains), domains)
    {
      var keys := domains.Keys;
      while keys != {}
        invariant keys <= domains.Keys == old(domains).Keys
        invariant forall v :: v in keys ==> domains[v] == old(domains[v])
        invariant forall v :: v in domains && v !in keys ==> domains[v] == set w | w in old(domains[v]) && |w| == v.length
        invariant Valid()
        decreases keys
      {
        var variable :| variable in keys;
        var removeSet := WrongLength(variable);
        RemoveWords(variable, removeSet);
        keys := keys - {variable};
      }
      forall m: map<Variable, Word> | Solution(crossword, old(domains), m)
        ensures Solution(crossword, domains, m)
      {
        assert forall v :: v in m ==> |m[v]| == v.length;
      }
    }

    /** Whether some word of ys has xword's letter at the crossing. */
    method HasPartner(xword: Word, xspot: nat, ys: set<Word>, yspot: nat) returns (found: bool)
      requires xspot < |xword| && forall v :: v in ys ==> yspot < |v|
      ensures found <==> Supported(xword, xspot, ys, yspot)
    {
      found := false;
      var rest := ys;
      while rest != {}
        invariant rest <= ys
        invariant !found && forall v :: v in ys - rest ==> !Agree(xword, xspot, v, yspot)
        decreases rest
      {
        var yword :| yword in rest;
        if xword[xspot] == yword[yspot] {
          assert Agree(xword, xspot, yword, yspot);
          return true;
        }
        rest := rest - {yword};
      }
    }

    /** The words of x's domain without a partner in y's domain. */
    method Unsupported(x: Variable, y: Variable, xspot: nat, yspot: nat) returns (removeSet: set<Word>)
      requires x in domains && y in domains
      requires forall w :: w in domains[x] ==> xspot < |w|
      requires forall v :: v in domains[y] ==> yspot < |v|
      ensures removeSet == domains[x] - Revised(domains[x], xspot, domains[y], yspot)
    {
      removeSet := {};
      var rest := domains[x];
      while rest != {}
        invariant rest <= domains[x]
        invariant removeSet == set w | w in domains[x] - rest && !Supported(w, xspot, domains[y], yspot)
        decreases rest
      {
        var xword :| xword in rest;
        var found := HasPartner(xword, xspot, domains[y], yspot);
        if !found {
          removeSet := removeSet + {xword};
        }
        rest := rest - {xword};
      }
    }

    /** Revise with the crossing (xspot, yspot) of x and y. */
    method ReviseAt(x: Variable, y: Variable, xspot: nat, yspot: nat) returns (revised: bool)
      requires x in domains && y in domains && x != y
      requires forall w :: w in domains[x] ==> xspot < |w|
      requires forall v :: v in domains[y] ==> yspot < |v|
      modifies this
      ensures domains == old(domains)[x := Revised(old(domains[x]), xspot, old(domains[y]), yspot)]
      ensures revised <==> domains[x] != old(domains[x])
    {
      var removeSet := Unsupported(x, y, xspot, yspot);
      ReviseIdempotent(domains[x], xspot, domains[y], yspot);
      assert domains[x] - removeSet == Revised(domains[x], xspot, domains[y], yspot);
      RemoveWords(x, removeSet);
      revised := removeSet != {};
    }

    /** Make arc (x, y) consistent: drop the words of x that no word of y
        meets at the crossing; report whether any was dropped. Slots that do
        not cross are left alone. */
    method Revise(x: Variable, y: Variable) returns (revised: bool)
      requires Valid() && Indexable(crossword, domains) && IsArc(crossword, (x, y))
      modifies this
      ensures Valid() && Shrunk(old(domains), domains)
      ensures crossword.overlaps[(x, y)].None? ==> !revised && domains == old(domains)
      ensures crossword.overlaps[(x, y)].Some? ==>
                domains == old(domains)[x := Revised(old(domains[x]), crossword.overlaps[(x, y)].value.0,
                                                     old(domains[y]), crossword.overlaps[(x, y)].value.1)]
      ensures revised <==> domains[x] != old(domains[x])
    {
      if crossword.overlaps[(x, y)].None? {
        return false;
      }
      var (xspot, yspot) := crossword.overlaps[(x, y)].value;
      assert forall w :: w in domains[x] ==> xspot < |w|;
      assert crossword.overlaps[(y, x)] == Some((yspot, xspot));
      assert forall v :: v in domains[y] ==> yspot < |v|;
      revised := ReviseAt(x, y, xspot, yspot);
      ReviseIdempotent(old(domains[x]), xspot, old(domains[y]), yspot);
      UpdateShrunk(old(domains), x, domains[x]);
      ShrunkFits(crossword, old(domains), domains);
    }

    /** The arcs from v1 to its neighbours that are not already present the
        other way round, appended to arcs. */
    method ArcsFrom(v1: Variable, arcs: seq<Arc>) returns (arcs': seq<Arc>)
      requires OneWay(arcs) && DistinctArcs(arcs)
      requires forall k :: 0 <= k < |arcs| ==> arcs[k].0 != v1
      ensures OneWay(arcs') && DistinctArcs(arcs')
      ensures |arcs'| >= |arcs| && arcs'[..|arcs|] == arcs
      ensures forall k :: |arcs| <= k < |arcs'| ==> arcs'[k].0 == v1 && arcs'[k].1 in Neighbors(crossword, v1)
      ensures forall y :: y in Neighbors(crossword, v1) ==> (v1, y) in arcs' || (y, v1) in arcs'
    {
      arcs' := arcs;
      var rest := Neighbors(crossword, v1);
      while rest != {}
        invariant rest <= Neighbors(crossword, v1)
        invariant OneWay(arcs') && DistinctArcs(arcs')
        invariant |arcs'| >= |arcs| && arcs'[..|arcs|] == arcs
        invariant forall k :: |arcs| <= k < |arcs'| ==> arcs'[k].0 == v1 && arcs'[k].1 in Neighbors(crossword, v1) - rest
        invariant forall y :: y in Neighbors(crossword, v1) - rest ==> (v1, y) in arcs' || (y, v1) in arcs'
        decreases rest
      {
        var v2 :| v2 in rest;
        if (v2, v1) !in arcs' {
          forall k | 0 <= k < |arcs'|
            ensures arcs'[k] != (v1, v2)
          {
            if k < |arcs| {
              assert arcs'[k] == arcs[k];
            }
          }
          arcs' := arcs' + [(v1, v2)];
        }
        rest := rest - {v2};
      }
    }

    /** The initial worklist of AC-3: for every crossing pair, the arc of the
        slot visited first, and never the reverse arc as well. */
    method FindArcs() returns (arcs: seq<Arc>)
      requires Valid()
      ensures forall k :: 0 <= k < |arcs| ==> arcs[k].1 in Neighbors(crossword, arcs[k].0)
      ensures DistinctArcs(arcs)
      ensures forall x, y :: y in Neighbors(crossword, x) ==> ((x, y) in arcs <==> (y, x) !in arcs)
    {
      arcs := [];
      var rest := crossword.variables;
      while rest != {}
        invariant rest <= crossword.variables
        invariant OneWay(arcs) && DistinctArcs(arcs)
        invariant forall k :: 0 <= k < |arcs| ==> arcs[k].0 !in rest && arcs[k].1 in Neighbors(crossword, arcs[k].0)
        invariant forall x, y :: x in crossword.variables - rest && y in Neighbors(crossword, x) ==> (x, y) in arcs || (y, x) in arcs
        decreases rest
      {
        var v1 :| v1 in rest;
        ghost var before := arcs;
        arcs := ArcsFrom(v1, arcs);
        forall k | 0 <= k < |arcs|
          ensures arcs[k].0 !in rest - {v1} && arcs[k].1 in Neighbors(crossword, arcs[k].0)
        {
          if k < |before| {
            assert arcs[k] == before[k];
          }
        }
        forall x, y | x in crossword.variables - (rest - {v1}) && y in Neighbors(crossword, x)
          ensures (x, y) in arcs || (y, x) in arcs
        {
          if x != v1 {
            assert (x, y) in before || (y, x) in before;
            assert before == arcs[..|before|];
          }
        }
        rest := rest - {v1};
      }
    }

    /** The arcs (z, x) for the neighbours z of x other than y, in the order
        the neighbour set is visited. */
    method Requeue(x: Variable, y: Variable) returns (more: seq<Arc>)
      requires Valid()
      ensures forall k :: 0 <= k < |more| ==> IsArc(crossword, more[k])
      ensures forall z :: z in Neighbors(crossword, x) && z != y ==> (z, x) in more
      ensures forall k :: 0 <= k < |more| ==> more[k].1 == x && more[k].0 in Neighbors(crossword, x) && more[k].0 != y
      ensures DistinctArcs(more)
    {
      more := [];
      var rest := Neighbors(crossword, x) - {y};
      while rest != {}
        invariant rest <= Neighbors(crossword, x) - {y}
        invariant forall z :: z in Neighbors(crossword, x) - {y} - rest ==> (z, x) in more
        invariant forall k :: 0 <= k < |more| ==> more[k].1 == x && more[k].0 in Neighbors(crossword, x) && more[k].0 != y
        invariant forall k :: 0 <= k < |more| ==> more[k].0 !in rest
        invariant DistinctArcs(more)
        decreases rest
      {
        var z :| z in rest;
        more := more + [(z, x)];
        rest := rest - {z};
      }
    }

    /** One round of AC-3: revise (x, y) and, when that narrowed the domain
        of x without emptying it, hand back the arcs (z, x) to queue again. */
    method Step(x: Variable, y: Variable, ghost seen: set<Arc>, ghost queue: seq<Arc>)
      returns (emptied: bool, more: seq<Arc>)
      requires Valid() && Indexable(crossword, domains) && IsArc(crossword, (x, y))
      requires Settled(crossword, domains, seen, [(x, y)] + queue)
      modifies this
      ensures Valid() && Indexable(crossword, domains) && Shrunk(old(domains), domains)
      ensures crossword.overlaps[(x, y)].None? ==> domains == old(domains)
      ensures crossword.overlaps[(x, y)].Some? ==>
                domains == old(domains)[x := Revised(old(domains[x]), crossword.overlaps[(x, y)].value.0,
                                                     old(domains[y]), crossword.overlaps[(x, y)].value.1)]
      ensures KeepsSolutions(crossword, old(domains), domains)
      ensures domains == old(domains) || Pairs(domains) < Pairs(old(domains))
      ensures domains == old(domains) ==> more == []
      ensures emptied <==> !Unemptied(old(domains), domains)
      ensures forall z, v :: (z, v) in more <==>
                domains[x] != old(domains[x]) && !emptied && v == x && z in Neighbors(crossword, x) && z != y
      ensures AllArcs(crossword, more) && DistinctArcs(more)
      ensures !emptied ==> Settled(crossword, domains, seen, queue + more)
    {
      ghost var before := domains;
      var revised := Revise(x, y);
      if crossword.overlaps[(x, y)].Some? {
        RevisedKeepsSolutions(crossword, before, x, y);
      }
      more := [];
      emptied := false;
      if revised {
        PairsShrink(before, x, domains[x]);
        if |domains[x]| == 0 {
          assert !Unemptied(before, domains) by {
            assert domains[x] == {} && before[x] != {};
          }
          return true, more;
        }
        more := Requeue(x, y);
      }
      SettledAfterRevise(crossword, before, domains, x, y, seen, queue, more);
    }

    /** AC-3 over a FIFO worklist, starting from `arcs` or, when none are
        given, from FindArcs. It stops with false as soon as a revision
        empties a domain, and otherwise with true once the worklist is
        drained; every arc it started with is then consistent. */
    method AC3(arcs: Option<seq<Arc>>) returns (ok: bool, ghost initial: seq<Arc>)
      requires Valid() && Indexable(crossword, domains)
      requires arcs.Some? ==> forall k :: 0 <= k < |arcs.value| ==> IsArc(crossword, arcs.value[k])
      modifies this
      ensures Valid() && Indexable(crossword, domains) && Shrunk(old(domains), domains)
      ensures arcs.Some? ==> initial == arcs.value
      ensures arcs.None? ==> forall x, y :: y in Neighbors(crossword, x) ==> ((x, y) in initial <==> (y, x) !in initial)
      ensures KeepsSolutions(crossword, old(domains), domains)
      ensures ok <==> Unemptied(old(domains), domains)
      ensures !ok ==> forall m :: !Solution(crossword, old(domains), m)
      ensures ok ==> forall k :: 0 <= k < |initial| ==> ArcConsistent(crossword, domains, initial[k].0, initial[k].1)
    {
      var queue: seq<Arc>;
      if arcs.None? {
        queue := FindArcs();
      } else {
        queue := arcs.value;
      }
      initial := queue;
      ghost var seen: set<Arc> := set k | 0 <= k < |queue| :: queue[k];
      while |queue| != 0
        invariant Valid() && Indexable(crossword, domains) && Shrunk(old(domains), domains)
        invariant AllArcs(crossword, queue)
        invariant Unemptied(old(domains), domains)
        invariant KeepsSolutions(crossword, old(domains), domains)
        invariant forall k :: 0 <= k < |initial| ==> initial[k] in seen
        invariant Settled(crossword, domains, seen, queue)
        decreases Pairs(domains), |queue|
      {
        var (x, y) := queue[0];
        ghost var before := domains;
        Dequeue(crossword, queue, []);
        var emptied, more := Step(x, y, seen, queue[1..]);
        ShrunkTrans(old(domains), before, domains);
        KeepsSolutionsTrans(crossword, old(domains), before, domains);
        if emptied {
          EmptiedNoSolution(crossword, old(domains), domains);
          return false, initial;
        }
        Dequeue(crossword, queue, more);
        queue := queue[1..] + more;
      }
      ok := true;
      forall k | 0 <= k < |initial|
        ensures ArcConsistent(crossword, domains, initial[k].0, initial[k].1)
      {
        assert (initial[k].0, initial[k].1) in seen;
      }
    }

    /** Whether every slot of the puzzle has a word in m. */
    method AssignmentComplete(m: map<Variable, Word>) returns (complete: bool)
      ensures complete <==> IsComplete(crossword, m)
    {
      var rest := crossword.variables;
      while rest != {}
        invariant rest <= crossword.variables
        invariant forall v :: v in crossword.variables - rest ==> v in m
        decreases rest
      {
        var v :| v in rest;
        if v !in m {
          return false;
        }
        rest := rest - {v};
      }
      return true;
    }

    /** Condition 1 of consistency: no word is used twice. */
    method DistinctValues(m: map<Variable, Word>) returns (ok: bool)
      ensures ok <==> DistinctWords(m)
    {
      var values: set<Word> := {};
      var rest := m.Keys;
      ghost var done: set<Variable> := {};
      while rest != {}
        invariant rest !! done && rest + done == m.Keys
        invariant values == set v | v in done :: m[v]
        invariant forall x, y :: x in done && y in done && x != y ==> m[x] != m[y]
        decreases rest
      {
        var v :| v in rest;
        if m[v] in values {
          ghost var u :| u in done && m[u] == m[v];
          assert u != v;
          return false;
        }
        values := values + {m[v]};
        rest := rest - {v};
        done := done + {v};
      }
      return true;
    }

    /** Condition 2 of consistency: every word has its slot's length. */
    method RightLength(m: map<Variable, Word>) returns (ok: bool)
      ensures ok <==> RightLengths(m)
    {
      var rest := m.Keys;
      while rest != {}
        invariant rest <= m.Keys
        invariant forall x :: x in m && x !in rest ==> |m[x]| == x.length
        decreases rest
      {
        var v :| v in rest;
        if v.length != |m[v]| {
          return false;
        }
        rest := rest - {v};
      }
      return true;
    }

    /** Condition 3 for one slot x: its word agrees with every other filled
        slot it crosses. */
    method AgreesWithOthers(m: map<Variable, Word>, x: Variable) returns (ok: bool)
      requires Valid() && m.Keys <= crossword.variables && x in m && RightLengths(m)
      ensures ok <==> AgreesWithAll(crossword, m, x)
    {
      var rest := m.Keys;
      while rest != {}
        invariant rest <= m.Keys
        invariant forall y :: y in m && y !in rest && y != x && (x, y) in crossword.overlaps && crossword.overlaps[(x, y)].Some? ==>
          Agree(m[x], crossword.overlaps[(x, y)].value.0, m[y], crossword.overlaps[(x, y)].value.1)
        decreases rest
      {
        var y :| y in rest;
        rest := rest - {y};
        if y == x {
          continue;
        }
        var overlap := crossword.overlaps[(x, y)];
        if overlap.Some? {
          var (xspot, yspot) := overlap.value;
          if m[x][xspot] != m[y][yspot] {
            return false;
          }
        }
      }
      return true;
    }

    /** Whether m fills the grid without breaking a constraint: the three
        conditions are checked in turn. */
    method Consistent(m: map<Variable, Word>) returns (ok: bool)
      requires Valid() && m.Keys <= crossword.variables
      ensures ok <==> IsConsistent(crossword, m)
    {
      ok := DistinctValues(m);
      if !ok {
        return;
      }
      ok := RightLength(m);
      if !ok {
        return;
      }
      var rest := m.Keys;
      while rest != {}
        invariant rest <= m.Keys
        invariant forall x :: x in m && x !in rest ==> AgreesWithAll(crossword, m, x)
        decreases rest
      {
        var x :| x in rest;
        ok := AgreesWithOthers(m, x);
        if !ok {
          return;
        }
        rest := rest - {x};
      }
    }

    /** The unassigned slots with the fewest remaining words. The running
        minimum starts at the size of the vocabulary, which bounds every
        domain. */
    method FewestValues(unassigned: set<Variable>) returns (minSet: set<Variable>)
      requires Valid() && unassigned <= crossword.variables && unassigned != {}
      ensures minSet != {} && minSet <= unassigned
      ensures forall v, u :: v in minSet && u in unassigned ==> |domains[v]| <= |domains[u]|
      ensures forall v, u :: v in minSet && u in unassigned && |domains[u]| == |domains[v]| ==> u in minSet
    {
      var minLength := |crossword.words|;
      minSet := {};
      var rest := unassigned;
      while rest != {}
        invariant rest <= unassigned
        invariant forall u :: u in unassigned - rest ==> minLength <= |domains[u]|
        invariant minSet == set u | u in unassigned - rest && |domains[u]| == minLength
        invariant unassigned - rest != {} ==> minSet != {}
        invariant unassigned - rest == {} ==> minLength == |crossword.words|
        invariant minLength <= |crossword.words|
        decreases rest
      {
        var variable :| variable in rest;
        var varLength := |domains[variable]|;
        SubsetCard(domains[variable], crossword.words);
        if varLength == minLength {
          minSet := minSet + {variable};
        } else if varLength < minLength {
          minSet := {};
          minLength := varLength;
          minSet := minSet + {variable};
        }
        rest := rest - {variable};
      }
    }

    /** The slot of candidates with the most neighbours; among equals, the
        one visited first. */
    method MostNeighbours(candidates: set<Variable>) returns (best: Variable)
      requires candidates != {}
      ensures best in candidates
      ensures forall v :: v in candidates ==> |Neighbors(crossword, v)| <= |Neighbors(crossword, best)|
    {
      if |candidates| == 1 {
        best :| best in candidates;
        assert candidates == {best} by {
          assert |candidates - {best}| == 0;
        }
        return;
      }
      best :| best in candidates;
      var rest := candidates - {best};
      var numberNeighbours := |Neighbors(crossword, best)|;
      while rest != {}
        invariant rest <= candidates && best in candidates
        invariant numberNeighbours == |Neighbors(crossword, best)|
        invariant forall v :: v in candidates - rest ==> |Neighbors(crossword, v)| <= numberNeighbours
        decreases rest
      {
        var variable :| variable in rest;
        var neighbours := |Neighbors(crossword, variable)|;
        if neighbours > numberNeighbours {
          best := variable;
          numberNeighbours := neighbours;
        }
        rest := rest - {variable};
      }
    }

    /** The minimum-remaining-values heuristic with the degree heuristic as
        tie-break: an unassigned slot with the fewest words left and, among
        those, the most crossings. */
    method SelectUnassignedVariable(m: map<Variable, Word>) returns (v: Variable)
      requires Valid() && !IsComplete(crossword, m)
      ensures v in crossword.variables && v !in m
      ensures forall u :: u in crossword.variables && u !in m ==> |domains[v]| <= |domains[u]|
      ensures forall u :: u in crossword.variables && u !in m && |domains[u]| == |domains[v]| ==>
                |Neighbors(crossword, u)| <= |Neighbors(crossword, v)|
    {
      var unassigned := crossword.variables - m.Keys;
      ghost var free :| free in crossword.variables && free !in m;
      assert free in unassigned;
      var minSet := FewestValues(unassigned);
      v := MostNeighbours(minSet);
    }

    /** How many words of ys clash with w at the crossing (p, q). */
    method CountClashes(w: Word, p: nat, ys: set<Word>, q: nat) returns (n: nat)
      requires p < |w| && forall v :: v in ys ==> q < |v|
      ensures n == |Clashes(w, p, ys, q)|
    {
      n := 0;
      var rest := ys;
      ghost var counted: set<Word> := {};
      while rest != {}
        invariant rest <= ys
        invariant counted == set v | v in ys - rest && !Agree(w, p, v, q)
        invariant n == |counted|
        decreases rest
      {
        var v :| v in rest;
        if w[p] != v[q] {
          n := n + 1;
          counted := counted + {v};
        }
        rest := rest - {v};
      }
      assert ys - rest == ys;
    }

    /** The score of one word of x: the words it rules out across all the
        neighbours of x. */
    method CountRuleOut(x: Variable, w: Word) returns (n: nat)
      requires Valid() && Indexable(crossword, domains) && x in crossword.variables && w in domains[x]
      ensures n == Constraining(crossword, domains, x, w)
    {
      var neighbours := Neighbors(crossword, x);
      n := 0;
      var rest := neighbours;
      while rest != {}
        invariant rest <= neighbours
        invariant n == RuleOut(crossword, domains, x, w, neighbours - rest)
        decreases rest
      {
        var y :| y in rest;
        var (xspot, yspot) := crossword.overlaps[(x, y)].value;
        assert crossword.overlaps[(y, x)] == Some((yspot, xspot));
        var k := CountClashes(w, xspot, domains[y], yspot);
        RuleOutRemove(crossword, domains, x, w, neighbours - rest + {y}, y);
        assert neighbours - rest + {y} - {y} == neighbours - rest;
        n := n + k;
        assert neighbours - (rest - {y}) == neighbours - rest + {y};
        rest := rest - {y};
      }
      assert neighbours - rest == neighbours;
    }

    /** The score table of the words of x, and the order in which the
        words were scored. Scores are recorded only while visiting
        neighbours, so a slot without neighbours gets an empty table. */
    method ScoreWords(x: Variable) returns (ruleout: map<Word, nat>, order: seq<Word>)
      requires Valid() && Indexable(crossword, domains) && x in crossword.variables
      ensures Neighbors(crossword, x) == {} ==> order == []
      ensures Neighbors(crossword, x) != {} ==> multiset(order) == multiset(domains[x])
      ensures forall k :: 0 <= k < |order| ==> order[k] in ruleout
      ensures forall w :: w in ruleout ==> ruleout[w] == Constraining(crossword, domains, x, w)
    {
      ruleout := map[];
      order := [];
      var rest := domains[x];
      ghost var done: set<Word> := {};
      while rest != {}
        invariant rest !! done && rest + done == domains[x]
        invariant Neighbors(crossword, x) == {} ==> order == []
        invariant Neighbors(crossword, x) != {} ==> multiset(order) == multiset(done)
        invariant forall k :: 0 <= k < |order| ==> order[k] in ruleout
        invariant forall w :: w in ruleout ==> ruleout[w] == Constraining(crossword, domains, x, w)
        decreases rest
      {
        var value :| value in rest;
        var n := CountRuleOut(x, value);
        if Neighbors(crossword, x) != {} {
          ruleout := ruleout[value := n];
          ListingStep(order, done, value);
          order := order + [value];
        }
        VisitOne(rest, done, value);
        rest := rest - {value};
        done := done + {value};
      }
    }

    /** The words of the domain of x ordered by how few words they rule out
        for the neighbours (least-constraining value first); a slot without
        neighbours gets an empty ordering. The assignment is not consulted. */
    method OrderDomainValues(x: Variable, m: map<Variable, Word>) returns (values: seq<Word>)
      requires Valid() && Indexable(crossword, domains) && x in crossword.variables
      ensures Neighbors(crossword, x) == {} ==> values == []
      ensures Neighbors(crossword, x) != {} ==> multiset(values) == multiset(domains[x])
      ensures forall i, j :: 0 <= i < j < |values| ==>
                Constraining(crossword, domains, x, values[i]) <= Constraining(crossword, domains, x, values[j])
    {
      var ruleout, order := ScoreWords(x);
      values := SortByScore(order, ruleout);
      assert forall k :: 0 <= k < |values| ==> ruleout[values[k]] == Constraining(crossword, domains, x, values[k]);
    }

    /** Backtracking search: returns the assignment itself once it is
        complete, otherwise tries the words of one unassigned slot in order
        and stops at the first that leads to a solution. When every slot
        crosses another, the search is complete: it gives up only when no
        solution over the domains extends the assignment it was given. */
    method Backtrack(a: Assignment) returns (result: Option<Assignment>)
      requires Valid() && Indexable(crossword, domains) && a.entries.Keys <= crossword.variables
      modifies a
      ensures Searched(crossword, domains, old(a.entries), a.entries, result.Some?)
      ensures result.Some? ==> result.value == a
      ensures result.None? && AllCross(crossword) ==> !Extendable(crossword, domains, old(a.entries))
      decreases |crossword.variables - a.entries.Keys|, 2
    {
      var complete := AssignmentComplete(a.entries);
      if complete {
        return Some(a);
      }
      var variable := SelectUnassignedVariable(a.entries);
      var values := OrderDomainValues(variable, a.entries);
      forall k | 0 <= k < |values|
        ensures values[k] in domains[variable]
      {
        assert values[k] in multiset(values);
      }
      label Ordered:
      result := TryValues(a, variable, values);
      assert unchanged@Ordered(this);
      if result.None? && AllCross(crossword) {
        NoneExtendsAll(crossword, domains, old(a.entries), variable, values);
      }
    }

    /** The loop of the search over the ordered words of one slot: the first
        word whose trial succeeds ends it. When every slot crosses another,
        None means that no word of the list extends the assignment to a
        solution. */
    method TryValues(a: Assignment, variable: Variable, values: seq<Word>) returns (result: Option<Assignment>)
      requires Valid() && Indexable(crossword, domains) && a.entries.Keys <= crossword.variables
      requires variable in crossword.variables && variable !in a.entries
      requires forall k :: 0 <= k < |values| ==> values[k] in domains[variable]
      modifies a
      ensures Searched(crossword, domains, old(a.entries), a.entries, result.Some?)
      ensures result.Some? ==> result.value == a
      ensures result.None? && AllCross(crossword) ==> NoneExtends(crossword, domains, old(a.entries), variable, values)
      decreases |crossword.variables - a.entries.Keys|, 1
    {
      ghost var m0 := a.entries;
      for i := 0 to |values|
        invariant a.entries == m0
        invariant AllCross(crossword) ==> NoneExtends(crossword, domains, m0, variable, values[..i])
      {
        result := TryValue(a, variable, values[i]);
        if result.Some? {
          return;
        }
        if AllCross(crossword) {
          NoneExtendsStep(crossword, domains, m0, variable, values[..i], values[i]);
          PrefixStep(values, i);
        }
      }
      WholePrefix(values);
      return None;
    }

    /** One iteration of the search loop: assign the word, recurse when the
        assignment stays consistent, and undo the assignment on failure.
        When every slot crosses another, failure means that no solution
        extends the assignment with this word. */
    method TryValue(a: Assignment, variable: Variable, value: Word) returns (result: Option<Assignment>)
      requires Valid() && Indexable(crossword, domains) && a.entries.Keys <= crossword.variables
      requires variable in crossword.variables && variable !in a.entries && value in domains[variable]
      modifies a
      ensures Searched(crossword, domains, old(a.entries), a.entries, result.Some?)
      ensures result.Some? ==> result.value == a
      ensures result.None? && AllCross(crossword) ==>
                !Extendable(crossword, domains, old(a.entries)[variable := value])
      decreases |crossword.variables - a.entries.Keys|, 0
    {
      ghost var before := a.entries;
      a.entries := a.entries[variable := value];
      ExtendableConsistent(crossword, domains, a.entries);
      var ok := Consistent(a.entries);
      if ok {
        FewerUnassigned(crossword.variables, before, variable, value);
        result := Backtrack(a);
        if result.Some? {
          SearchedStep(crossword, domains, before, variable, value, a.entries);
          return;
        }
      }
      UpdateThenRemove(before, variable, value);
      a.entries := a.entries - {variable};
      result := None;
    }

    /** Node consistency, then AC-3 over every crossing (its verdict is not
        consulted), then backtracking from the empty assignment. The domains
        only shrink and keep every solution; when every slot crosses another,
        None means that the puzzle has no solution at all. */
    method Solve() returns (result: Option<Assignment>)
      requires Valid()
      modifies this
      ensures Valid() && NodeConsistent(domains)
      ensures Shrunk(old(domains), domains) && KeepsSolutions(crossword, old(domains), domains)
      ensures result.Some? ==> Solution(crossword, domains, result.value.entries)
      ensures result.Some? ==> Solution(crossword, old(domains), result.value.entries)
      ensures result.None? && AllCross(crossword) ==> forall m :: !Solution(crossword, old(domains), m)
    {
      EnforceNodeConsistency();
      NodeConsistentIndexable(crossword, domains);
      ghost var nodeConsistent := domains;
      var ok;
      ghost var initial;
      ok, initial := AC3(None);
      ShrunkNodeConsistent(nodeConsistent, domains);
      ShrunkTrans(old(domains), nodeConsistent, domains);
      KeepsSolutionsTrans(crossword, old(domains), nodeConsistent, domains);
      var assignment := new Assignment();
      result := Backtrack(assignment);
      if result.Some? {
        SearchedSolution(crossword, domains, result.value.entries);
      }
      assert forall m :: Extends(m, map[]);
    }
  }
}
