/**
 * The candidate plays actions offers when no move is forced: each free
 * position, in row-major order, is tried with 0 and then 1 through the
 * speculative play check, every trial placement staying on the board; the
 * accepted plays are then sorted, most restricted first, by a stable sort.
 */
module Candidates {
  import opened Grids

  // ---------------------------------------------------------------------
  // The plays tried
  // ---------------------------------------------------------------------

  /** p comes before q in row-major order of their cells, and 0 before 1
      on the same cell. */
  predicate PlayBefore(p: Play, q: Play) {
    p.row < q.row || (p.row == q.row && p.col < q.col) ||
    (p.row == q.row && p.col == q.col && p.number < q.number)
  }

  predicate StrictlyOrdered(ps: seq<Play>) {
    forall a, b | 0 <= a < b < |ps| :: PlayBefore(ps[a], ps[b])
  }

  /** Every play lies on an n×n board and writes 0, 1 or 2. */
  predicate OnGrid(n: nat, ps: seq<Play>) {
    forall a | 0 <= a < |ps| :: ps[a].row < n && ps[a].col < n && 0 <= ps[a].number <= 2
  }

  /** The plays the loop over free positions tries, in order: 0 then 1 at
      each position. */
  function Attempts(frees: seq<(nat, nat)>): (ps: seq<Play>)
    ensures |ps| == 2 * |frees|
  {
    if frees == [] then []
    else
      var f := frees[|frees| - 1];
      Attempts(frees[..|frees| - 1]) + [Play(f.0, f.1, 0), Play(f.0, f.1, 1)]
  }

  /** The play tried with `number` (0 or 1) at the k-th listed position. */
  lemma {:induction false} AttemptsAt(frees: seq<(nat, nat)>, k: nat, number: nat)
    requires k < |frees| && number < 2
    ensures 2 * k + number < |Attempts(frees)|
    ensures Attempts(frees)[2 * k + number] == Play(frees[k].0, frees[k].1, number)
  {
    var pre := frees[..|frees| - 1];
    if k < |frees| - 1 {
      AttemptsAt(pre, k, number);
    }
  }

  /** Play a of the plays tried is the (a / 2)-th listed position with
      number a % 2. */
  lemma AttemptsIndex(frees: seq<(nat, nat)>)
    ensures forall a | 0 <= a < |Attempts(frees)| ::
              Attempts(frees)[a] == Play(frees[a / 2].0, frees[a / 2].1, a % 2)
  {
    forall a | 0 <= a < |Attempts(frees)|
      ensures Attempts(frees)[a] == Play(frees[a / 2].0, frees[a / 2].1, a % 2)
    {
      AttemptsAt(frees, a / 2, a % 2);
    }
  }

  /** The plays tried are exactly 0 and 1 at each listed position, and they
      come in order when the positions do. */
  lemma AttemptsSpec(frees: seq<(nat, nat)>)
    ensures forall q :: q in Attempts(frees) <==> (q.row, q.col) in frees && (q.number == 0 || q.number == 1)
    ensures StrictlyRowMajor(frees) ==> StrictlyOrdered(Attempts(frees))
  {
    var s := Attempts(frees);
    AttemptsIndex(frees);
    forall q ensures q in s <==> (q.row, q.col) in frees && (q.number == 0 || q.number == 1) {
      if q in s {
        var a :| 0 <= a < |s| && s[a] == q;
        assert frees[a / 2] in frees;
      }
      if (q.row, q.col) in frees && (q.number == 0 || q.number == 1) {
        var k :| 0 <= k < |frees| && frees[k] == (q.row, q.col);
        AttemptsAt(frees, k, q.number);
      }
    }
    if StrictlyRowMajor(frees) {
      forall x, y | 0 <= x < y < |s| ensures PlayBefore(s[x], s[y]) {
        if x / 2 < y / 2 {
          assert RowMajorBefore(frees[x / 2], frees[y / 2]);
        }
      }
    }
  }

  // ---------------------------------------------------------------------
  // Trying the plays
  // ---------------------------------------------------------------------

  /** The board after the trials and the plays the check accepted. */
  datatype TrialRun = TrialRun(grid: Grid, kept: seq<Play>)

  /** Each play is placed on the board as it stands (and stays there), and
      kept when the play check accepts it. */
  function Trials(g: Grid, plays: seq<Play>): (t: TrialRun)
    requires WellFormed(g) && OnGrid(|g|, plays)
    ensures WellFormed(t.grid) && |t.grid| == |g|
  {
    if plays == [] then TrialRun(g, [])
    else
      var p := plays[|plays| - 1];
      var prev := Trials(g, plays[..|plays| - 1]);
      var h := Place(prev.grid, p.row, p.col, p.number);
      PlaceKeepsWellFormed(prev.grid, p.row, p.col, p.number);
      TrialRun(h, prev.kept + (if PlayAcceptable(h, p) then [p] else []))
  }

  /** Play number a is accepted: the check passes on the board reached by
      placing it after all the plays before it. */
  predicate Accepted(g: Grid, plays: seq<Play>, a: nat)
    requires WellFormed(g) && OnGrid(|g|, plays) && a < |plays|
  {
    var t := Trials(g, plays[..a + 1]);
    PlayAcceptable(t.grid, plays[a])
  }

  /** One more play: it is placed on the board the earlier plays left, and
      kept when the check accepts it there. */
  lemma TrialsSnoc(g: Grid, plays: seq<Play>, p: Play)
    requires WellFormed(g) && OnGrid(|g|, plays)
    requires p.row < |g| && p.col < |g| && 0 <= p.number <= 2
    ensures OnGrid(|g|, plays + [p])
    ensures var prev := Trials(g, plays);
            var h := Place(prev.grid, p.row, p.col, p.number);
            Trials(g, plays + [p]) == TrialRun(h, prev.kept + (if PlayAcceptable(h, p) then [p] else []))
  {
    assert (plays + [p])[..|plays|] == plays;
  }

  lemma OnGridPrefix(n: nat, ps: seq<Play>, m: nat)
    requires OnGrid(n, ps) && m <= |ps|
    ensures OnGrid(n, ps[..m])
  {
    assert forall a | 0 <= a < m :: ps[..m][a] == ps[a];
  }

  /** The run of the first m plays. */
  function TrialsUpTo(g: Grid, plays: seq<Play>, m: nat): TrialRun
    requires WellFormed(g) && OnGrid(|g|, plays) && m <= |plays|
  {
    OnGridPrefix(|g|, plays, m);
    Trials(g, plays[..m])
  }

  /** The run of the first m + 1 plays extends the run of the first m by
      play number m. */
  lemma TrialsUpToStep(g: Grid, plays: seq<Play>, m: nat)
    requires WellFormed(g) && OnGrid(|g|, plays) && m < |plays|
    ensures var prev := TrialsUpTo(g, plays, m);
            var p := plays[m];
            var h := Place(prev.grid, p.row, p.col, p.number);
            TrialsUpTo(g, plays, m + 1) == TrialRun(h, prev.kept + (if PlayAcceptable(h, p) then [p] else []))
  {
    OnGridPrefix(|g|, plays, m);
    assert plays[..m + 1] == plays[..m] + [plays[m]];
    TrialsSnoc(g, plays[..m], plays[m]);
  }

  /** The verdict on an earlier play does not depend on the plays after it. */
  lemma AcceptedPrefix(g: Grid, plays: seq<Play>, m: nat, a: nat)
    requires WellFormed(g) && OnGrid(|g|, plays) && a < m <= |plays|
    ensures OnGrid(|g|, plays[..m])
    ensures Accepted(g, plays[..m], a) == Accepted(g, plays, a)
  {
    assert plays[..m][..a + 1] == plays[..a + 1];
  }

  /** The kept plays grow by the last play exactly when it is accepted. */
  lemma TrialsKeptSnoc(g: Grid, plays: seq<Play>)
    requires WellFormed(g) && OnGrid(|g|, plays) && plays != []
    ensures OnGrid(|g|, plays[..|plays| - 1])
    ensures Trials(g, plays).kept ==
              Trials(g, plays[..|plays| - 1]).kept +
              (if Accepted(g, plays, |plays| - 1) then [plays[|plays| - 1]] else [])
  {
    var n := |plays|;
    OnGridPrefix(|g|, plays, n - 1);
    assert plays[..n] == plays;
    var prev := Trials(g, plays[..n - 1]);
    var p := plays[n - 1];
    assert Trials(g, plays).kept ==
           prev.kept + (if PlayAcceptable(Place(prev.grid, p.row, p.col, p.number), p) then [p] else []);
  }

  /** Appending a play that comes after every earlier one keeps a
      selection ordered, and adds that play exactly when it is selected. */
  lemma SelectionSnoc(pre: seq<Play>, p: Play, prevKept: seq<Play>, b: bool)
    requires forall a | 0 <= a < |pre| :: PlayBefore(pre[a], p)
    requires forall q | q in prevKept :: q in pre
    requires StrictlyOrdered(prevKept)
    ensures var kept := prevKept + (if b then [p] else []);
            StrictlyOrdered(kept) && (p in kept <==> b) &&
            (forall q | q in kept :: q in pre + [p]) &&
            (forall a | 0 <= a < |pre| :: pre[a] in kept <==> pre[a] in prevKept)
  {
    var kept := prevKept + (if b then [p] else []);
    forall x, y | 0 <= x < y < |kept| ensures PlayBefore(kept[x], kept[y]) {
      if y < |prevKept| {
        assert kept[x] == prevKept[x] && kept[y] == prevKept[y];
      } else {
        assert kept[x] == prevKept[x] && prevKept[x] in prevKept;
      }
    }
    forall a | 0 <= a < |pre| ensures pre[a] != p {
      assert PlayBefore(pre[a], p);
    }
    forall a | 0 <= a < |pre| ensures pre[a] in kept <==> pre[a] in prevKept {
      assert PlayBefore(pre[a], p);
    }
  }

  /** The plays whose verdict is true, in their order. */
  function Select(plays: seq<Play>, verdicts: seq<bool>): seq<Play>
    requires |verdicts| == |plays|
  {
    if plays == [] then []
    else
      var n := |plays|;
      Select(plays[..n - 1], verdicts[..n - 1]) + (if verdicts[n - 1] then [plays[n - 1]] else [])
  }

  /** From plays in order, Select keeps exactly those with a true verdict,
      and keeps them in order. */
  lemma {:induction false} SelectSpec(plays: seq<Play>, verdicts: seq<bool>)
    requires |verdicts| == |plays| && StrictlyOrdered(plays)
    ensures forall a | 0 <= a < |plays| :: plays[a] in Select(plays, verdicts) <==> verdicts[a]
    ensures forall q | q in Select(plays, verdicts) :: q in plays
    ensures StrictlyOrdered(Select(plays, verdicts))
  {
    if plays != [] {
      var n := |plays|;
      var pre, p := plays[..n - 1], plays[n - 1];
      assert plays == pre + [p];
      SelectSpec(pre, verdicts[..n - 1]);
      assert forall a | 0 <= a < |pre| :: PlayBefore(pre[a], p) by {
        assert forall a | 0 <= a < |pre| :: pre[a] == plays[a];
      }
      SelectionSnoc(pre, p, Select(pre, verdicts[..n - 1]), verdicts[n - 1]);
    }
  }

  /** The check's verdict on each play, in order. */
  function Verdicts(g: Grid, plays: seq<Play>): (v: seq<bool>)
    requires WellFormed(g) && OnGrid(|g|, plays)
    ensures |v| == |plays|
  {
    seq(|plays|, a requires 0 <= a < |plays| => Accepted(g, plays, a))
  }

  /** The trials keep the plays with a favourable verdict. */
  lemma {:induction false} KeptIsSelect(g: Grid, plays: seq<Play>)
    requires WellFormed(g) && OnGrid(|g|, plays)
    ensures Trials(g, plays).kept == Select(plays, Verdicts(g, plays))
  {
    if plays != [] {
      var n := |plays|;
      var pre := plays[..n - 1];
      TrialsKeptSnoc(g, plays);
      KeptIsSelect(g, pre);
      VerdictsPrefix(g, plays);
    }
  }

  /** Dropping the last play leaves the earlier verdicts as they were. */
  lemma VerdictsPrefix(g: Grid, plays: seq<Play>)
    requires WellFormed(g) && OnGrid(|g|, plays) && plays != []
    ensures OnGrid(|g|, plays[..|plays| - 1])
    ensures Verdicts(g, plays[..|plays| - 1]) == Verdicts(g, plays)[..|plays| - 1]
  {
    var n := |plays|;
    forall a | 0 <= a < n - 1 ensures Accepted(g, plays[..n - 1], a) == Accepted(g, plays, a) {
      AcceptedPrefix(g, plays, n - 1, a);
    }
  }

  /** The plays kept are the accepted ones, in the order they were tried. */
  lemma TrialsKeepAccepted(g: Grid, plays: seq<Play>)
    requires WellFormed(g) && OnGrid(|g|, plays) && StrictlyOrdered(plays)
    ensures forall a | 0 <= a < |plays| :: plays[a] in Trials(g, plays).kept <==> Accepted(g, plays, a)
    ensures forall q | q in Trials(g, plays).kept :: q in plays
    ensures StrictlyOrdered(Trials(g, plays).kept)
  {
    KeptIsSelect(g, plays);
    SelectSpec(plays, Verdicts(g, plays));
  }

  /** The board after trying 0 and then 1 at one more position. */
  lemma TrialsGridSnoc(g: Grid, frees: seq<(nat, nat)>, f: (nat, nat))
    requires WellFormed(g) && OnGrid(|g|, Attempts(frees)) && f.0 < |g| && f.1 < |g|
    ensures OnGrid(|g|, Attempts(frees + [f]))
    ensures var h := Trials(g, Attempts(frees)).grid;
            Trials(g, Attempts(frees + [f])).grid == Place(Place(h, f.0, f.1, 0), f.0, f.1, 1)
  {
    var a := Attempts(frees);
    var p0, p1 := Play(f.0, f.1, 0), Play(f.0, f.1, 1);
    assert (frees + [f])[..|frees|] == frees;
    assert Attempts(frees + [f]) == (a + [p0]) + [p1];
    TrialsSnoc(g, a + [p0], p1);
    TrialsSnoc(g, a, p0);
  }

  /** After trying 0 and then 1 at each listed position, every listed cell
      holds 1 and every other cell is unchanged. */
  lemma {:induction false} TrialsGrid(g: Grid, frees: seq<(nat, nat)>)
    requires WellFormed(g) && forall f | f in frees :: f.0 < |g| && f.1 < |g|
    ensures OnGrid(|g|, Attempts(frees))
    ensures forall i, j | 0 <= i < |g| && 0 <= j < |g| ::
              Trials(g, Attempts(frees)).grid[i][j] == if (i, j) in frees then 1 else g[i][j]
  {
    if frees != [] {
      var pre := frees[..|frees| - 1];
      var f := frees[|frees| - 1];
      assert frees == pre + [f];
      TrialsGrid(g, pre);
      TrialsGridSnoc(g, pre, f);
    }
  }

  /** The plays tried at the free cells of a board all lie on it. */
  lemma FreeAttemptsOnGrid(g: Grid)
    requires WellFormed(g)
    ensures OnGrid(|g|, Attempts(FreePositions(g)))
  {
    var frees := FreePositions(g);
    FreePositionsSpec(g);
    forall a | 0 <= a < |Attempts(frees)|
      ensures Attempts(frees)[a].row < |g| && Attempts(frees)[a].col < |g|
      ensures 0 <= Attempts(frees)[a].number <= 2
    {
      AttemptsAt(frees, a / 2, a % 2);
      assert frees[a / 2] in frees;
    }
  }

  /** Trying every free position leaves no free cell. */
  lemma NoFreeCellAfterTrials(g: Grid)
    requires WellFormed(g)
    ensures OnGrid(|g|, Attempts(FreePositions(g)))
    ensures forall i, j | 0 <= i < |g| && 0 <= j < |g| ::
              Trials(g, Attempts(FreePositions(g))).grid[i][j] != Free
  {
    var frees := FreePositions(g);
    FreePositionsSpec(g);
    TrialsGrid(g, frees);
    FilledEverywhere(g, Trials(g, Attempts(frees)).grid, frees);
  }

  lemma FilledEverywhere(g: Grid, h: Grid, frees: seq<(nat, nat)>)
    requires IsSquare(g) && IsSquare(h) && |h| == |g|
    requires forall p :: p in frees <==> p.0 < |g| && p.1 < |g| && g[p.0][p.1] == Free
    requires forall i, j | 0 <= i < |g| && 0 <= j < |g| :: h[i][j] == if (i, j) in frees then 1 else g[i][j]
    ensures forall i, j | 0 <= i < |g| && 0 <= j < |g| :: h[i][j] != Free
  {
    forall i, j | 0 <= i < |g| && 0 <= j < |g| ensures h[i][j] != Free {
      if (i, j) !in frees {
        assert g[i][j] != Free;
      }
    }
  }

  // ---------------------------------------------------------------------
  // The degree heuristic: a stable sort, largest key first
  // ---------------------------------------------------------------------

  /** The sort key of a play: restrictions of its cell (0 off the board,
      which plays from free positions never are). */
  function KeyOf(g: Grid, q: Play): (k: nat)
    ensures k <= 4
  {
    if IsSquare(g) && q.row < |g| && q.col < |g| then Restrictions(g, q.row, q.col) else 0
  }

  /** KeyOf as a function of the play alone, for the board g. */
  function KeyFn(g: Grid): Play -> nat {
    q => KeyOf(g, q)
  }

  lemma KeyFnBound(g: Grid)
    ensures forall q :: KeyFn(g)(q) <= 4
  {
  }

  /** The plays of ps whose key is k, in their order in ps. */
  function WithKey(ps: seq<Play>, key: Play -> nat, k: nat): seq<Play>
  {
    if ps == [] then []
    else
      var q := ps[|ps| - 1];
      WithKey(ps[..|ps| - 1], key, k) + (if key(q) == k then [q] else [])
  }

  /** The plays with key k, then those with key k - 1, ..., then key 0. */
  function ByKeyFrom(ps: seq<Play>, key: Play -> nat, k: nat): seq<Play>
  {
    if k == 0 then WithKey(ps, key, 0) else WithKey(ps, key, k) + ByKeyFrom(ps, key, k - 1)
  }

  /** actions.sort(key=restrictions, reverse=True): Python's sort is
      stable, also in reverse, and the keys lie between 0 and 4. */
  function SortByRestrictions(ps: seq<Play>, g: Grid): seq<Play>
  {
    ByKeyFrom(ps, KeyFn(g), 4)
  }

  lemma {:induction false} WithKeyMembers(ps: seq<Play>, key: Play -> nat, k: nat)
    ensures forall q | q in WithKey(ps, key, k) :: q in ps && key(q) == k
  {
    if ps != [] {
      WithKeyMembers(ps[..|ps| - 1], key, k);
    }
  }

  lemma {:induction false} WithKeySnoc(ps: seq<Play>, q: Play, key: Play -> nat, k: nat)
    ensures key(q) == k ==> WithKey(ps + [q], key, k) == WithKey(ps, key, k) + [q]
    ensures key(q) != k ==> WithKey(ps + [q], key, k) == WithKey(ps, key, k)
  {
    assert (ps + [q])[..|ps|] == ps;
  }

  /** A play whose key is above k is not among ByKeyFrom(_, k). */
  lemma {:induction false} ByKeyFromSnocAbove(ps: seq<Play>, q: Play, key: Play -> nat, k: nat)
    requires key(q) > k
    ensures ByKeyFrom(ps + [q], key, k) == ByKeyFrom(ps, key, k)
  {
    WithKeySnoc(ps, q, key, k);
    if k > 0 {
      ByKeyFromSnocAbove(ps, q, key, k - 1);
    }
  }

  lemma MultisetOfInsert(x: seq<Play>, y: seq<Play>, w: seq<Play>, q: Play, r: seq<Play>)
    requires x == w + [q] + r && y == w + r
    ensures multiset(x) == multiset(y) + multiset{q}
  {
    assert w + [q] + r == (w + [q]) + r;
  }

  /** Appending a play whose key is k adds it once to ByKeyFrom(_, k). */
  lemma ByKeyFromSnocAt(ps: seq<Play>, q: Play, key: Play -> nat, k: nat)
    requires key(q) == k
    ensures multiset(ByKeyFrom(ps + [q], key, k)) == multiset(ByKeyFrom(ps, key, k)) + multiset{q}
  {
    var w := WithKey(ps, key, k);
    var r := if k == 0 then [] else ByKeyFrom(ps, key, k - 1);
    ByKeyFromSnocShape(ps, q, key, k);
    assert ByKeyFrom(ps, key, k) == w + r;
    MultisetOfInsert(ByKeyFrom(ps + [q], key, k), ByKeyFrom(ps, key, k), w, q, r);
  }

  /** Where the appended play with key k lands in ByKeyFrom(_, k): right
      after the earlier plays with key k. */
  lemma ByKeyFromSnocShape(ps: seq<Play>, q: Play, key: Play -> nat, k: nat)
    requires key(q) == k
    ensures ByKeyFrom(ps + [q], key, k) ==
              WithKey(ps, key, k) + [q] + (if k == 0 then [] else ByKeyFrom(ps, key, k - 1))
  {
    WithKeySnoc(ps, q, key, k);
    if k > 0 {
      ByKeyFromSnocAbove(ps, q, key, k - 1);
    }
  }

  /** Appending a play whose key is at most k adds it once to ByKeyFrom(_, k). */
  lemma {:induction false} ByKeyFromSnocWithin(ps: seq<Play>, q: Play, key: Play -> nat, k: nat)
    requires key(q) <= k
    ensures multiset(ByKeyFrom(ps + [q], key, k)) == multiset(ByKeyFrom(ps, key, k)) + multiset{q}
    decreases k, 1
  {
    if key(q) == k {
      ByKeyFromSnocAt(ps, q, key, k);
    } else {
      ByKeyFromSnocBelow(ps, q, key, k);
    }
  }

  /** The same for a key below k: the play joins the plays of lower keys. */
  lemma {:induction false} ByKeyFromSnocBelow(ps: seq<Play>, q: Play, key: Play -> nat, k: nat)
    requires key(q) < k
    ensures multiset(ByKeyFrom(ps + [q], key, k)) == multiset(ByKeyFrom(ps, key, k)) + multiset{q}
    decreases k, 0
  {
    ByKeyFromSnocWithin(ps, q, key, k - 1);
    ByKeyFromSnocBelowStep(ps, q, key, k);
  }

  /** The step of ByKeyFromSnocBelow from k - 1 to k. */
  lemma ByKeyFromSnocBelowStep(ps: seq<Play>, q: Play, key: Play -> nat, k: nat)
    requires key(q) < k
    requires multiset(ByKeyFrom(ps + [q], key, k - 1)) == multiset(ByKeyFrom(ps, key, k - 1)) + multiset{q}
    ensures multiset(ByKeyFrom(ps + [q], key, k)) == multiset(ByKeyFrom(ps, key, k)) + multiset{q}
  {
    ByKeyFromSnocBelowShape(ps, q, key, k);
    ByKeyFromStep(ps, key, k);
    UnionGrownTail(multiset(ByKeyFrom(ps + [q], key, k)), multiset(ByKeyFrom(ps, key, k)),
                   multiset(WithKey(ps, key, k)), multiset(ByKeyFrom(ps, key, k - 1)),
                   multiset(ByKeyFrom(ps + [q], key, k - 1)), q);
  }

  lemma UnionGrownTail(x: multiset<Play>, y: multiset<Play>, w: multiset<Play>, r: multiset<Play>, r': multiset<Play>, q: Play)
    requires x == w + r' && y == w + r && r' == r + multiset{q}
    ensures x == y + multiset{q}
  {
  }

  /** Bucketing from k splits into the plays of key k and the bucketing
      from k - 1. */
  lemma ByKeyFromStep(ps: seq<Play>, key: Play -> nat, k: nat)
    requires k > 0
    ensures multiset(ByKeyFrom(ps, key, k)) == multiset(WithKey(ps, key, k)) + multiset(ByKeyFrom(ps, key, k - 1))
  {
  }

  /** A play appended with a key below k leaves the plays with key k as
      they were. */
  lemma ByKeyFromSnocBelowShape(ps: seq<Play>, q: Play, key: Play -> nat, k: nat)
    requires key(q) < k
    ensures multiset(ByKeyFrom(ps + [q], key, k)) ==
              multiset(WithKey(ps, key, k)) + multiset(ByKeyFrom(ps + [q], key, k - 1))
  {
    WithKeySnoc(ps, q, key, k);
  }

  /** Bucketing from the largest key down loses and adds nothing. */
  lemma {:induction false} ByKeyFromIsPermutation(ps: seq<Play>, key: Play -> nat, top: nat)
    requires forall q :: key(q) <= top
    ensures multiset(ByKeyFrom(ps, key, top)) == multiset(ps)
  {
    if ps == [] {
      ByKeyFromEmpty(key, top);
    } else {
      var pre := ps[..|ps| - 1];
      var q := ps[|ps| - 1];
      assert ps == pre + [q];
      ByKeyFromIsPermutation(pre, key, top);
      ByKeyFromSnocWithin(pre, q, key, top);
      assert multiset(ps) == multiset(pre) + multiset{q};
    }
  }

  lemma {:induction false} ByKeyFromEmpty(key: Play -> nat, k: nat)
    ensures ByKeyFrom([], key, k) == []
  {
    if k > 0 {
      ByKeyFromEmpty(key, k - 1);
    }
  }

  /** The sort is a permutation. */
  lemma SortIsPermutation(ps: seq<Play>, g: Grid)
    ensures multiset(SortByRestrictions(ps, g)) == multiset(ps)
  {
    KeyFnBound(g);
    ByKeyFromIsPermutation(ps, KeyFn(g), 4);
  }

  predicate KeysNonIncreasing(ps: seq<Play>, key: Play -> nat) {
    forall a, b | 0 <= a < b < |ps| :: key(ps[a]) >= key(ps[b])
  }

  /** Every play of ps has key k. */
  predicate AllKeyed(ps: seq<Play>, key: Play -> nat, k: nat) {
    forall a | 0 <= a < |ps| :: key(ps[a]) == k
  }

  /** Every play of ps has a key of at most k. */
  predicate KeysAtMost(ps: seq<Play>, key: Play -> nat, k: nat) {
    forall a | 0 <= a < |ps| :: key(ps[a]) <= k
  }

  lemma {:induction false} WithKeyKeys(ps: seq<Play>, key: Play -> nat, k: nat)
    ensures AllKeyed(WithKey(ps, key, k), key, k)
  {
    if ps != [] {
      WithKeyKeys(ps[..|ps| - 1], key, k);
    }
  }

  lemma SortedConcat(w: seq<Play>, rest: seq<Play>, key: Play -> nat, k: nat)
    requires k > 0 && AllKeyed(w, key, k)
    requires KeysNonIncreasing(rest, key) && KeysAtMost(rest, key, k - 1)
    ensures KeysNonIncreasing(w + rest, key) && KeysAtMost(w + rest, key, k)
  {
    var r := w + rest;
    forall a | 0 <= a < |r| ensures key(r[a]) <= k {
      if a < |w| {
        assert r[a] == w[a];
      } else {
        assert r[a] == rest[a - |w|];
      }
    }
    forall a, b | 0 <= a < b < |r| ensures key(r[a]) >= key(r[b]) {
      if b < |w| {
        assert r[a] == w[a] && r[b] == w[b];
      } else if a < |w| {
        assert r[a] == w[a] && r[b] == rest[b - |w|];
      } else {
        assert r[a] == rest[a - |w|] && r[b] == rest[b - |w|];
      }
    }
  }

  /** Bucketing from key k down gives non-increasing keys, none above k. */
  lemma {:induction false} ByKeyFromSorted(ps: seq<Play>, key: Play -> nat, k: nat)
    ensures KeysNonIncreasing(ByKeyFrom(ps, key, k), key)
    ensures KeysAtMost(ByKeyFrom(ps, key, k), key, k)
  {
    var w := WithKey(ps, key, k);
    WithKeyKeys(ps, key, k);
    if k > 0 {
      var rest := ByKeyFrom(ps, key, k - 1);
      ByKeyFromSorted(ps, key, k - 1);
      SortedConcat(w, rest, key, k);
      assert ByKeyFrom(ps, key, k) == w + rest;
    }
  }

  /** The sorted plays come with non-increasing keys. */
  lemma SortIsSorted(ps: seq<Play>, g: Grid)
    ensures KeysNonIncreasing(SortByRestrictions(ps, g), KeyFn(g))
  {
    ByKeyFromSorted(ps, KeyFn(g), 4);
  }

  lemma {:induction false} WithKeyAppend(a: seq<Play>, b: seq<Play>, key: Play -> nat, k: nat)
    ensures WithKey(a + b, key, k) == WithKey(a, key, k) + WithKey(b, key, k)
  {
    if b == [] {
      assert a + b == a;
    } else {
      var pre := b[..|b| - 1];
      var q := b[|b| - 1];
      assert b == pre + [q];
      assert a + b == (a + pre) + [q];
      WithKeyAppend(a, pre, key, k);
      WithKeySnoc(a + pre, q, key, k);
    }
  }

  lemma {:induction false} WithKeyTwice(ps: seq<Play>, key: Play -> nat, k: nat, m: nat)
    ensures WithKey(WithKey(ps, key, m), key, k) == if k == m then WithKey(ps, key, k) else []
  {
    if ps != [] {
      var pre := ps[..|ps| - 1];
      var q := ps[|ps| - 1];
      WithKeyTwice(pre, key, k, m);
      var w := WithKey(pre, key, m);
      if key(q) == m {
        assert WithKey(ps, key, m) == w + [q];
        WithKeySnoc(w, q, key, k);
      } else {
        assert WithKey(ps, key, m) == w;
      }
    }
  }

  lemma {:induction false} WithKeyAbove(ps: seq<Play>, key: Play -> nat, top: nat, k: nat)
    requires forall q :: key(q) <= top
    requires k > top
    ensures WithKey(ps, key, k) == []
  {
    if ps != [] {
      WithKeyAbove(ps[..|ps| - 1], key, top, k);
    }
  }

  lemma {:induction false} WithKeyOfByKey(ps: seq<Play>, key: Play -> nat, k: nat, m: nat)
    ensures WithKey(ByKeyFrom(ps, key, m), key, k) == if k <= m then WithKey(ps, key, k) else []
  {
    WithKeyTwice(ps, key, k, m);
    if m > 0 {
      WithKeyOfByKey(ps, key, k, m - 1);
      WithKeyAppend(WithKey(ps, key, m), ByKeyFrom(ps, key, m - 1), key, k);
    }
  }

  /** The sort is stable: the plays of each key keep their relative order. */
  lemma SortIsStable(ps: seq<Play>, g: Grid, k: nat)
    ensures WithKey(SortByRestrictions(ps, g), KeyFn(g), k) == WithKey(ps, KeyFn(g), k)
  {
    WithKeyOfByKey(ps, KeyFn(g), k, 4);
    if k > 4 {
      KeyFnBound(g);
      WithKeyAbove(ps, KeyFn(g), 4, k);
    }
  }

  /** Keeping the plays of one key keeps their order. */
  lemma {:induction false} WithKeyOrdered(ps: seq<Play>, key: Play -> nat, k: nat)
    requires StrictlyOrdered(ps)
    ensures StrictlyOrdered(WithKey(ps, key, k))
  {
    if ps != [] {
      var pre := ps[..|ps| - 1];
      var q := ps[|ps| - 1];
      WithKeyOrdered(pre, key, k);
      WithKeyMembers(pre, key, k);
      var w := WithKey(pre, key, k);
      var r := WithKey(ps, key, k);
      forall x, y | 0 <= x < y < |r| ensures PlayBefore(r[x], r[y]) {
        if y < |w| {
          assert r[x] == w[x] && r[y] == w[y];
        } else {
          assert r[x] == w[x] && w[x] in w;
          var a :| 0 <= a < |pre| && pre[a] == w[x];
          assert ps[a] == w[x];
        }
      }
    }
  }

  /** Plays with equal keys come in row-major order. */
  predicate TiesInOrder(ps: seq<Play>, key: Play -> nat) {
    forall a, b | 0 <= a < b < |ps| && key(ps[a]) == key(ps[b]) :: PlayBefore(ps[a], ps[b])
  }

  /** Ordered plays of one key, followed by plays of smaller keys whose
      ties are in order, have their ties in order. */
  lemma TiesInOrderConcat(w: seq<Play>, rest: seq<Play>, key: Play -> nat, k: nat)
    requires k > 0 && StrictlyOrdered(w) && AllKeyed(w, key, k)
    requires TiesInOrder(rest, key) && KeysAtMost(rest, key, k - 1)
    ensures TiesInOrder(w + rest, key)
  {
    var r := w + rest;
    forall a, b | 0 <= a < b < |r| && key(r[a]) == key(r[b]) ensures PlayBefore(r[a], r[b]) {
      if b < |w| {
        assert r[a] == w[a] && r[b] == w[b];
      } else if |w| <= a {
        assert r[a] == rest[a - |w|] && r[b] == rest[b - |w|];
      }
    }
  }

  lemma {:induction false} ByKeyFromTiesInOrder(ps: seq<Play>, key: Play -> nat, k: nat)
    requires StrictlyOrdered(ps)
    ensures TiesInOrder(ByKeyFrom(ps, key, k), key)
  {
    var w := WithKey(ps, key, k);
    WithKeyOrdered(ps, key, k);
    if k > 0 {
      var rest := ByKeyFrom(ps, key, k - 1);
      WithKeyKeys(ps, key, k);
      ByKeyFromTiesInOrder(ps, key, k - 1);
      ByKeyFromSorted(ps, key, k - 1);
      TiesInOrderConcat(w, rest, key, k);
      assert ByKeyFrom(ps, key, k) == w + rest;
    }
  }

  /** When the plays come in row-major order, the sorted plays of equal key
      still do. */
  lemma SortTiesInOrder(ps: seq<Play>, g: Grid)
    requires StrictlyOrdered(ps)
    ensures TiesInOrder(SortByRestrictions(ps, g), KeyFn(g))
  {
    ByKeyFromTiesInOrder(ps, KeyFn(g), 4);
  }
}
