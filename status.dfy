/**
 * The five upload statuses, their cyclic order, and the priority cascade that
 * summarises a platform's categories into one collapsed cell.
 */
module StatusAlgebra {

  datatype Status = Uploaded | NotUploaded | Pending | Rejected | Disabled

  /** The statuses in the order of the keys of the status colour table. */
  const Order: seq<Status> := [Uploaded, NotUploaded, Pending, Rejected, Disabled]

  /** Position of a status in `Order` (what `statuses.index` returns). */
  function Index(s: Status): (i: nat)
    ensures i < |Order| && Order[i] == s
  {
    match s
    case Uploaded => 0
    case NotUploaded => 1
    case Pending => 2
    case Rejected => 3
    case Disabled => 4
  }

  lemma IndexInjective(s: Status, t: Status)
    requires Index(s) == Index(t)
    ensures s == t
  {
  }

  /** The status one step further in `Order`, wrapping from the last back to the first. */
  function Next(s: Status): (r: Status)
    ensures r != s
  {
    match s
    case Uploaded => NotUploaded
    case NotUploaded => Pending
    case Pending => Rejected
    case Rejected => Disabled
    case Disabled => Uploaded
  }

  /** `Next` is the click rule of the code: the entry after the current one in `Order`, modulo its length. */
  lemma NextFollowsOrder(s: Status)
    ensures Next(s) == Order[(Index(s) + 1) % |Order|]
    ensures Index(Next(s)) == (Index(s) + 1) % |Order|
  {
  }

  /** `k` successive steps of `Next`. */
  function NextN(s: Status, k: nat): Status
  {
    if k == 0 then s else Next(NextN(s, k - 1))
  }

  lemma ModFiveStep(a: nat)
    ensures (a % 5 + 1) % 5 == (a + 1) % 5
  {
    var q, r := a / 5, a % 5;
    assert a == 5 * q + r;
    if r < 4 {
      assert a + 1 == 5 * q + (r + 1);
    } else {
      assert a + 1 == 5 * (q + 1);
    }
  }

  lemma {:induction false} NextNIndex(s: Status, k: nat)
    ensures Index(NextN(s, k)) == (Index(s) + k) % |Order|
  {
    if k > 0 {
      NextNIndex(s, k - 1);
      NextFollowsOrder(NextN(s, k - 1));
      ModFiveStep(Index(s) + k - 1);
    }
  }

  /** Cycling returns to the start after exactly five steps and not before. */
  lemma CycleLengthIsFive(s: Status, k: nat)
    requires 0 < k < |Order|
    ensures NextN(s, |Order|) == s
    ensures NextN(s, k) != s
  {
    NextNIndex(s, |Order|);
    NextNIndex(s, k);
    IndexInjective(NextN(s, |Order|), s);
  }

  /** `Next` is a permutation of the statuses: every status has exactly one predecessor. */
  lemma NextIsBijective(t: Status)
    ensures exists s :: Next(s) == t
    ensures forall s, s' :: Next(s) == t && Next(s') == t ==> s == s'
  {
    var s := Order[(Index(t) + |Order| - 1) % |Order|];
    assert Next(s) == t;
  }

  /**
   * The collapsed-cell status of a platform whose categories have the given
   * statuses: all Uploaded gives Uploaded; otherwise any Rejected gives
   * Rejected; otherwise any Pending gives Pending; otherwise all Disabled gives
   * Disabled; otherwise Not Uploaded. An empty list counts as all Uploaded.
   */
  function Rollup(statuses: seq<Status>): (r: Status)
    ensures r == Uploaded <==> forall s | s in statuses :: s == Uploaded
    ensures r == Rejected <==> Rejected in statuses
    ensures r == Pending <==> Pending in statuses && Rejected !in statuses
    ensures r == Disabled <==> |statuses| > 0 && forall s | s in statuses :: s == Disabled
    ensures r == NotUploaded <==>
              && Rejected !in statuses && Pending !in statuses
              && (exists s | s in statuses :: s != Uploaded)
              && (exists s | s in statuses :: s != Disabled)
  {
    if forall s | s in statuses :: s == Uploaded then
      assert |statuses| > 0 ==> statuses[0] in statuses;
      Uploaded
    else if exists s | s in statuses :: s == Rejected then Rejected
    else if exists s | s in statuses :: s == Pending then Pending
    else if forall s | s in statuses :: s == Disabled then Disabled
    else NotUploaded
  }

  /**
   * Merging two collapsed cells: Rejected dominates, then Pending; two equal
   * cells keep their status; any other mix is Not Uploaded.
   */
  function Combine(x: Status, y: Status): Status
  {
    if x == Rejected || y == Rejected then Rejected
    else if x == Pending || y == Pending then Pending
    else if x == y then x
    else NotUploaded
  }

  /** Merging is commutative, associative and idempotent, so the order of categories does not matter. */
  lemma CombineLaws(x: Status, y: Status, z: Status)
    ensures Combine(x, y) == Combine(y, x)
    ensures Combine(Combine(x, y), z) == Combine(x, Combine(y, z))
    ensures Combine(x, x) == x
  {
  }

  /** Reference definition of the cascade: fold `Combine` over the statuses left to right. */
  function RollupFold(statuses: seq<Status>): Status
  {
    if |statuses| == 0 then Uploaded
    else if |statuses| == 1 then statuses[0]
    else Combine(RollupFold(statuses[..|statuses| - 1]), statuses[|statuses| - 1])
  }

  /** Extending a non-empty list by one status merges its rollup with that status. */
  lemma RollupSnoc(statuses: seq<Status>, x: Status)
    requires |statuses| > 0
    ensures Rollup(statuses + [x]) == Combine(Rollup(statuses), x)
  {
    var t := statuses + [x];
    assert forall s :: s in t <==> s in statuses || s == x;
    assert statuses[0] in t && x in t;
  }

  /** The cascade agrees with the pairwise merge, whatever the number of categories. */
  lemma {:induction false} RollupIsFold(statuses: seq<Status>)
    ensures Rollup(statuses) == RollupFold(statuses)
  {
    if |statuses| == 1 {
      assert statuses == [statuses[0]];
    } else if |statuses| > 1 {
      var init := statuses[..|statuses| - 1];
      RollupIsFold(init);
      assert statuses == init + [statuses[|statuses| - 1]];
      RollupSnoc(init, statuses[|statuses| - 1]);
    }
  }

  /** The rollup of two non-empty groups of categories is the merge of their rollups. */
  lemma RollupAppend(a: seq<Status>, b: seq<Status>)
    requires |a| > 0 && |b| > 0
    ensures Rollup(a + b) == Combine(Rollup(a), Rollup(b))
  {
    var t := a + b;
    assert forall s :: s in t <==> s in a || s in b;
    assert a[0] in t && b[0] in t;
  }

  /** A platform whose categories all carry one status shows that status when collapsed. */
  lemma RollupUniform(statuses: seq<Status>, x: Status)
    requires |statuses| > 0
    requires forall s | s in statuses :: s == x
    ensures Rollup(statuses) == x
  {
    assert statuses[0] in statuses;
  }
}
