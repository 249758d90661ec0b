/** What both sequence-number servers implement: handing out consecutive ranges. */
module SequenceAllocator {
  import opened Machines

  /** One range, [start, start + length), and the client it was made for. */
  datatype Grant = Grant(pid: nat, start: int, length: int)

  datatype Allocator = Allocator(next: int, grants: seq<Grant>)

  const FRESH := Allocator(0, [])

  function Allocate(a: Allocator, pid: nat, length: int): Allocator {
    Allocator(a.next + length, a.grants + [Grant(pid, a.next, length)])
  }

  function TotalLength(grants: seq<Grant>): int {
    if grants == [] then 0 else TotalLength(grants[..|grants| - 1]) + grants[|grants| - 1].length
  }

  /** Every range starts where the lengths of the ranges before it end. */
  ghost predicate Consecutive(a: Allocator) {
    && a.next == TotalLength(a.grants)
    && forall k | 0 <= k < |a.grants| :: a.grants[k].start == TotalLength(a.grants[..k])
  }

  lemma AllocateKeepsConsecutive(a: Allocator, pid: nat, length: int)
    requires Consecutive(a)
    ensures Consecutive(Allocate(a, pid, length))
  {
    var a' := Allocate(a, pid, length);
    assert a'.grants[..|a.grants|] == a.grants;
    forall k | 0 <= k < |a'.grants|
      ensures a'.grants[k].start == TotalLength(a'.grants[..k])
    {
      if k < |a.grants| {
        assert a'.grants[..k] == a.grants[..k];
      }
    }
  }

  // ---------- the allocator as a machine of its own ----------

  ghost predicate Fresh(a: Allocator) {
    a == FRESH
  }

  ghost predicate Grows(a: Allocator, a': Allocator) {
    exists pid, length :: a' == Allocate(a, pid, length)
  }

  lemma ReachableConsecutive(a: Allocator)
    requires Reachable(Fresh, Grows, a)
    ensures Consecutive(a)
  {
    forall a, a' | Consecutive(a) && Grows(a, a')
      ensures Consecutive(a')
    {
      var pid, length :| a' == Allocate(a, pid, length);
      AllocateKeepsConsecutive(a, pid, length);
    }
    InvariantReachable(Fresh, Grows, Consecutive, a);
  }

  // ---------- how ranges lie ----------

  lemma {:induction false} TotalGrows(grants: seq<Grant>, i: nat, j: nat)
    requires i <= j <= |grants| && forall k | 0 <= k < |grants| :: grants[k].length >= 0
    ensures TotalLength(grants[..i]) <= TotalLength(grants[..j])
    ensures i < j ==> TotalLength(grants[..i]) + grants[i].length <= TotalLength(grants[..j])
    decreases j
  {
    if i < j {
      TotalGrows(grants, i, j - 1);
      assert grants[..j][..j - 1] == grants[..j - 1];
    }
  }

  predicate In(x: int, g: Grant) {
    g.start <= x < g.start + g.length
  }

  /** Some number is in both ranges. */
  ghost predicate Overlap(g: Grant, h: Grant) {
    exists x :: In(x, g) && In(x, h)
  }

  /** Without negative lengths any two ranges are disjoint, and all of them lie in [0, next). */
  lemma RangesDisjoint(a: Allocator, i: nat, j: nat)
    requires Consecutive(a) && i < j < |a.grants|
    requires forall k | 0 <= k < |a.grants| :: a.grants[k].length >= 0
    ensures a.grants[i].start + a.grants[i].length <= a.grants[j].start
    ensures 0 <= a.grants[i].start && a.grants[j].start + a.grants[j].length <= a.next
  {
    TotalGrows(a.grants, 0, i);
    TotalGrows(a.grants, i, j);
    TotalGrows(a.grants, j, |a.grants|);
    assert a.grants[..|a.grants|] == a.grants;
  }

  lemma RangeInside(a: Allocator, i: nat)
    requires Consecutive(a) && i < |a.grants|
    requires forall k | 0 <= k < |a.grants| :: a.grants[k].length >= 0
    ensures 0 <= a.grants[i].start && a.grants[i].start + a.grants[i].length <= a.next
  {
    TotalGrows(a.grants, 0, i);
    TotalGrows(a.grants, i, |a.grants|);
    assert a.grants[..|a.grants|] == a.grants;
  }

  /** Exactly when the promise holds: every range starts behind the one before it if and only if every length but the
      last is positive. */
  lemma StartsIncreaseIff(a: Allocator)
    requires Consecutive(a)
    ensures (forall i, j | 0 <= i < j < |a.grants| :: a.grants[i].start < a.grants[j].start)
            <==> forall k | 0 <= k < |a.grants| - 1 :: a.grants[k].length > 0
  {
    hide Consecutive;
    if forall k | 0 <= k < |a.grants| - 1 :: a.grants[k].length > 0 {
      forall i: nat, j: nat | i < j < |a.grants|
        ensures a.grants[i].start < a.grants[j].start
      {
        StartsBehind(a, i, j);
      }
    } else {
      var k :| 0 <= k < |a.grants| - 1 && a.grants[k].length <= 0;
      NextStart(a, k);
      assert a.grants[k + 1].start <= a.grants[k].start;
    }
  }

  lemma NextStart(a: Allocator, k: nat)
    requires Consecutive(a) && k + 1 < |a.grants|
    ensures a.grants[k + 1].start == a.grants[k].start + a.grants[k].length
  {
    assert a.grants[..k + 1][..k] == a.grants[..k];
  }

  lemma {:induction false} StartsBehind(a: Allocator, i: nat, j: nat)
    requires Consecutive(a) && i < j < |a.grants|
    requires forall k | 0 <= k < |a.grants| - 1 :: a.grants[k].length > 0
    ensures a.grants[i].start < a.grants[j].start
  {
    hide Consecutive;
    NextStart(a, j - 1);
    if i < j - 1 {
      StartsBehind(a, i, j - 1);
    }
  }

  /** The ranges of two clients have no number in common. */
  lemma GrantsApart(a: Allocator, g: Grant, h: Grant)
    requires Consecutive(a) && g in a.grants && h in a.grants && g.pid != h.pid
    requires forall k | 0 <= k < |a.grants| :: a.grants[k].length >= 0
    ensures !Overlap(g, h)
    ensures 0 <= g.start && g.start + g.length <= a.next
  {
    hide Consecutive;
    var i: nat :| i < |a.grants| && a.grants[i] == g;
    var j: nat :| j < |a.grants| && a.grants[j] == h;
    RangeInside(a, i);
    RangesDisjoint(a, if i < j then i else j, if i < j then j else i);
  }
}
