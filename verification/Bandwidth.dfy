/** src/net/socketgroup.cpp and src/net/networkthread.cpp: rate limits. In every round a group
    of sockets may move as many bytes as its own limit and the global limit allow. An allowance
    of 0 handed to a group means "no limit". */
module Bandwidth {
  import opened Common

  /** A socket; None is a null pointer in the list. */
  type SocketRef = Option<nat>

  /** There is no socket that could move anything. */
  predicate AllNull(sockets: seq<SocketRef>)
  {
    forall i :: 0 <= i < |sockets| ==> sockets[i].None?
  }

  /** No socket is listed twice. */
  ghost predicate NoneTwice(sockets: seq<SocketRef>)
  {
    forall i, j :: 0 <= i < j < |sockets| && sockets[i].Some? ==> sockets[i] != sockets[j]
  }

  /** Subtraction that stops at 0. */
  function Minus(a: nat, b: nat): nat { if b > a then 0 else a - b }

  /** What each socket is offered in one turn; never 0, which would mean "no limit". */
  function SlotSize(allowance: nat, sockets: nat): (slot: nat)
    requires sockets > 0
    ensures slot >= 1
  {
    allowance / sockets + 1
  }

  /** A slot is the share of one socket, rounded up past it. */
  lemma SlotIsAShare(allowance: nat, sockets: nat)
    requires sockets > 0
    ensures (SlotSize(allowance, sockets) - 1) * sockets <= allowance < SlotSize(allowance, sockets) * sockets
  {
    var q, r := allowance / sockets, allowance % sockets;
    assert allowance == q * sockets + r;
    assert (q + 1) * sockets == q * sockets + sockets;
  }

  // ----- The slot in 32 bits

  /** In 32 bits the slot is the same, except that a single socket with the largest allowance
      would be offered 0, that is, no limit. */
  lemma SlotIn32Bits(allowance: nat, sockets: nat)
    requires allowance < TWO_32 && sockets > 0
    ensures SlotSize(allowance, sockets) % TWO_32 == SlotSize(allowance, sockets) <==> !(allowance == TWO_32 - 1 && sockets == 1)
    ensures SlotSize(allowance, sockets) % TWO_32 == 0 <==> allowance == TWO_32 - 1 && sockets == 1
  {
  }

  /** What is left of an allowance after some turns. */
  function Remaining(allowance: nat, ns: seq<nat>): nat
  {
    if ns == [] then allowance else Minus(Remaining(allowance, ns[..|ns| - 1]), ns[|ns| - 1])
  }

  /** Sockets may move `ns` in successive turns: each is offered a slot or what is left, and an
      offer of 0 is no limit. */
  predicate Turns(slot: nat, allowance: nat, ns: seq<nat>)
  {
    || ns == []
    || var k := |ns| - 1;
       var left := Remaining(allowance, ns[..k]);
       Turns(slot, allowance, ns[..k]) && left > 0 && (Min(slot, left) > 0 ==> ns[k] <= Min(slot, left))
  }

  lemma {:induction false} TurnsStayWithin(slot: nat, allowance: nat, ns: seq<nat>)
    requires slot > 0 && Turns(slot, allowance, ns)
    ensures Sum(ns) + Remaining(allowance, ns) == allowance
    decreases |ns|
  {
    if ns != [] {
      TurnsStayWithin(slot, allowance, ns[..|ns| - 1]);
    }
  }

  /** With the 32-bit slot, the turns are certain to stay within the allowance exactly if the slot
      has not wrapped to 0. */
  lemma SlotBoundsExactly(allowance: nat, sockets: nat)
    requires 0 < allowance < TWO_32 && sockets > 0
    ensures var slot := SlotSize(allowance, sockets) % TWO_32;
            (forall ns :: Turns(slot, allowance, ns) ==> Sum(ns) <= allowance) <==> !(allowance == TWO_32 - 1 && sockets == 1)
  {
    hide SlotSize;
    SlotIn32Bits(allowance, sockets);
    var slot := SlotSize(allowance, sockets) % TWO_32;
    if slot == 0 {
      var ns := [allowance + 1];
      assert ns[..0] == [];
      assert Turns(slot, allowance, ns[..0]) && Remaining(allowance, ns[..0]) == allowance && Sum(ns[..0]) == 0;
      assert Turns(slot, allowance, ns) && Sum(ns) == allowance + 1;
    } else {
      forall ns | Turns(slot, allowance, ns) ensures Sum(ns) <= allowance {
        TurnsStayWithin(slot, allowance, ns);
      }
    }
  }

  /** In that case the loop need not end either: a socket with nothing to move stays in the list. */
  lemma {:induction false} EmptyTurns(allowance: nat, n: nat)
    requires allowance > 0
    ensures Turns(0, allowance, seq(n, _ => 0)) && Remaining(allowance, seq(n, _ => 0)) == allowance
  {
    var ns := seq(n, _ => 0);
    if n > 0 {
      EmptyTurns(allowance, n - 1);
      assert ns[..n - 1] == seq(n - 1, _ => 0);
    }
  }

  class SocketGroup {
    var limit: nat
    var sockets: seq<SocketRef>
    var groupAllowance: nat
    var groupAssured: nat

    /** Since calcAllowance: the allowance that it computed, the bytes moved, the sockets that were
        ready then, and those that have moved all they could. */
    ghost var computed: nat
    ghost var moved: nat
    ghost var ready: set<nat>
    ghost var drained: set<nat>

    /** What each socket has moved, ever; only a transfer changes it. */
    ghost var movedBy: map<nat, nat>

    ghost function MovedBy(s: nat): nat
      reads this
    {
      if s in movedBy then movedBy[s] else 0
    }

    /** A group with a limit has moved exactly what is gone of its allowance. */
    ghost predicate Valid()
      reads this
    {
      limit > 0 ==> moved + groupAllowance == computed
    }

    ghost predicate Exhausted()
      reads this
    {
      limit > 0 && groupAllowance == 0
    }

    /** Every socket that was ready still has its turn, unless it or the group can do no more. */
    ghost predicate NoneForgotten()
      reads this
    {
      Exhausted() || forall s :: s in ready ==> Some(s) in sockets || s in drained
    }

    /** There is nothing left for this group to do. */
    ghost predicate Done()
      reads this
    {
      Exhausted() || forall s :: s in ready ==> s in drained
    }

    /** The group has moved this much, unless it can do no more. */
    ghost predicate Got(n: nat)
      reads this
    {
      moved >= n || Done()
    }

    constructor (limit: nat)
      ensures Valid() && sockets == [] && this.limit == limit
    {
      this.limit, sockets, groupAllowance, groupAssured := limit, [], 0, 0;
      computed, moved, ready, drained, movedBy := 0, 0, {}, {}, map[];
    }

    method Clear()
      modifies this`sockets
      ensures sockets == []
    {
      sockets := [];
    }

    /** Starts a round. The amounts depend on clocks and rates; a group without a limit has none. */
    method CalcAllowance(allowance: nat, assured: nat)
      modifies this
      ensures Valid() && limit == old(limit) && sockets == old(sockets) && moved == 0 && movedBy == old(movedBy)
      ensures groupAllowance == computed == (if limit > 0 then allowance else 0) && groupAssured == assured
      ensures (forall s :: s in ready <==> Some(s) in sockets) && drained == {}
    {
      groupAllowance := if limit > 0 then allowance else 0;
      groupAssured := assured;
      moved, computed := 0, groupAllowance;
      ready := set i | 0 <= i < |sockets| && sockets[i].Some? :: sockets[i].value;
      drained := {};
    }

    /** Reads from or writes to a socket, which moves at most `n` bytes, or all it can for 0. */
    method Transfer(s: nat, n: nat) returns (ret: nat)
      modifies this`moved, this`drained, this`movedBy
      ensures n > 0 ==> ret <= n
      ensures moved == old(moved) + ret && movedBy == old(movedBy)[s := old(MovedBy(s)) + ret]
      ensures drained == if n == 0 || ret < n then old(drained) + {s} else old(drained)
    {
      ret :| ret >= 0;
      if n > 0 && ret > n {
        ret := n;
      }
      moved, movedBy := moved + ret, movedBy[s := MovedBy(s) + ret];
      if n == 0 || ret < n {
        drained := drained + {s};
      }
    }

    method ProcessUnlimited()
      modifies this`moved, this`drained, this`movedBy
      ensures moved >= old(moved) && old(drained) <= drained
      ensures AllNull(sockets) ==> moved == old(moved)
      ensures forall s :: Some(s) in sockets ==> s in drained
    {
      for i := 0 to |sockets|
        invariant moved >= old(moved) && old(drained) <= drained
        invariant AllNull(sockets) ==> moved == old(moved)
        invariant forall j :: 0 <= j < i && sockets[j].Some? ==> sockets[j].value in drained
      {
        if sockets[i].Some? {
          var _ := Transfer(sockets[i].value, 0);
        }
      }
    }

    /** Round robin in slots until the allowance is used up or no socket can go on. If no socket is
        listed twice, no two of those that remain have moved amounts more than one slot apart. */
    method ProcessLimited(allowance0: nat) returns (more: bool, allowance: nat)
      requires |sockets| > 0
      modifies this`sockets, this`moved, this`drained, this`movedBy
      ensures allowance <= allowance0 && moved == old(moved) + (allowance0 - allowance)
      ensures more <==> |sockets| > 0
      ensures more ==> allowance == 0
      ensures old(drained) <= drained
      ensures forall s :: Some(s) in sockets ==> Some(s) in old(sockets)
      ensures forall s :: Some(s) in old(sockets) ==> Some(s) in sockets || s in drained
      ensures NoneTwice(old(sockets)) ==> forall s, t :: Some(s) in sockets && Some(t) in sockets ==>
        MovedBy(s) - old(MovedBy(s)) <= MovedBy(t) - old(MovedBy(t)) + SlotSize(allowance0, |old(sockets)|)
      ensures old(AllNull(sockets)) ==> moved == old(moved)
    {
      allowance := allowance0;
      hide SlotSize, Gains, TurnsTaken, WithinASlot, NoneTwice, AllNull;
      var bslot := SlotSize(allowance, |sockets|);
      var itr := 0;
      ghost var each, got := 0, seq(|sockets|, _ => 0);
      ghost var start := movedBy;
      NothingYet(sockets, start, bslot);
      while |sockets| > 0 && allowance > 0
        invariant |sockets| > 0 ==> itr < |sockets|
        invariant allowance <= allowance0 && moved == old(moved) + (allowance0 - allowance)
        invariant old(drained) <= drained
        invariant forall s :: Some(s) in sockets ==> Some(s) in old(sockets)
        invariant forall s :: Some(s) in old(sockets) ==> Some(s) in sockets || s in drained
        invariant NoneTwice(old(sockets)) ==> NoneTwice(sockets) && Gains(sockets, got, start, movedBy)
        invariant |got| == |sockets|
        invariant allowance > 0 ==> TurnsTaken(got, itr, each, bslot)
        invariant WithinASlot(got, bslot)
        invariant old(AllNull(sockets)) ==> AllNull(sockets) && moved == old(moved)
        decreases |sockets| + allowance
      {
        var as_ := bslot;
        if as_ > allowance {
          as_ := allowance;
        }
        var s := sockets[itr];
        SlotsApart(got, itr, each, bslot, as_);
        ErasedAt(sockets, itr);
        ErasedGains(sockets, got, start, movedBy, itr);
        if s.Some? {
          ghost var before := movedBy;
          var ret := Transfer(s.value, as_);
          TurnGains(sockets, got, start, before, itr, ret);
          if ret != as_ {
            sockets := sockets[..itr] + sockets[itr + 1..];
            got := got[..itr] + got[itr + 1..];
          } else {
            got := got[itr := got[itr] + ret];
            itr := itr + 1;
          }
          allowance := Minus(allowance, ret);
        } else {
          sockets := sockets[..itr] + sockets[itr + 1..];
          got := got[..itr] + got[itr + 1..];
        }
        if itr == |sockets| {
          itr, each := 0, each + bslot;
        }
      }
      more := |sockets| > 0;
      if NoneTwice(old(sockets)) {
        GainsAreFair(sockets, got, start, movedBy, bslot);
      }
    }

    /** Lets the group use the global allowance as far as its own limit allows. */
    method Process(global: nat) returns (more: bool, left: nat)
      requires Valid() && |sockets| > 0
      modifies this`sockets, this`moved, this`groupAllowance, this`drained, this`movedBy
      ensures Valid() && left <= global && moved >= old(moved)
      ensures global > 0 ==> moved == old(moved) + (global - left)
      ensures global == 0 ==> left == 0 && !more
      ensures more ==> |sockets| > 0 && moved > old(moved) && left == 0
      ensures old(Done()) ==> Done()
      ensures Exhausted() ==> sockets == []
      ensures old(NoneForgotten()) ==> NoneForgotten() && (more || Done())
      ensures old(AllNull(sockets)) ==> moved == old(moved)
    {
      left := global;
      if limit > 0 {
        if groupAllowance == 0 {
          Clear();
          return false, left;
        }
        var ret := false;
        if global == 0 {
          var p := groupAllowance;
          ret, p := ProcessLimited(p);
          groupAllowance := p;
        } else if global <= groupAllowance {
          var tmp := global;
          ret, tmp := ProcessLimited(tmp);
          var done := global - tmp;
          groupAllowance := Minus(groupAllowance, done);
          left := tmp;
        } else {
          var p := groupAllowance;
          ret, p := ProcessLimited(p);
          var done := groupAllowance - p;
          left := Minus(global, done);
          groupAllowance := p;
        }
        if groupAllowance == 0 {
          Clear();
          return false, left;
        } else {
          return ret, left;
        }
      } else if global > 0 {
        more, left := ProcessLimited(global);
      } else {
        ProcessUnlimited();
        return false, left;
      }
    }
  }

  // ----- Round robin

  /** `got` is what each socket of the list has moved since `start`. */
  ghost predicate Gains(sockets: seq<SocketRef>, got: seq<nat>, start: map<nat, nat>, now: map<nat, nat>)
  {
    && |got| == |sockets|
    && forall i :: 0 <= i < |sockets| && sockets[i].Some? ==> Gain(sockets[i].value, start, now) == got[i]
  }

  function Gain(s: nat, start: map<nat, nat>, now: map<nat, nat>): int
  {
    var a: int, b: int := if s in now then now[s] else 0, if s in start then start[s] else 0;
    a - b
  }

  lemma NothingYet(sockets: seq<SocketRef>, start: map<nat, nat>, slot: nat)
    ensures var got := seq(|sockets|, _ => 0);
            Gains(sockets, got, start, start) && TurnsTaken(got, 0, 0, slot) && WithinASlot(got, slot)
  {
  }

  /** A socket moves `n` bytes: it alone has moved more, and it may be taken off the list. */
  lemma TurnGains(sockets: seq<SocketRef>, got: seq<nat>, start: map<nat, nat>, now: map<nat, nat>, i: nat, n: nat)
    requires i < |sockets| == |got| && sockets[i].Some?
    ensures NoneTwice(sockets) && Gains(sockets, got, start, now) ==>
              var s := sockets[i].value;
              var now' := now[s := (if s in now then now[s] else 0) + n];
              && Gains(sockets, got[i := got[i] + n], start, now')
              && Gains(sockets[..i] + sockets[i + 1..], got[..i] + got[i + 1..], start, now')
  {
    if NoneTwice(sockets) && Gains(sockets, got, start, now) {
      var s := sockets[i].value;
      var now' := now[s := (if s in now then now[s] else 0) + n];
      assert forall j :: 0 <= j < |sockets| && j != i ==> sockets[j] != sockets[i];
      assert Gains(sockets, got[i := got[i] + n], start, now');
    }
  }

  lemma ErasedGains(sockets: seq<SocketRef>, got: seq<nat>, start: map<nat, nat>, now: map<nat, nat>, i: nat)
    requires i < |sockets| == |got|
    ensures NoneTwice(sockets) ==> NoneTwice(sockets[..i] + sockets[i + 1..])
    ensures AllNull(sockets) ==> sockets[i].None? && AllNull(sockets[..i] + sockets[i + 1..])
    ensures Gains(sockets, got, start, now) ==> Gains(sockets[..i] + sockets[i + 1..], got[..i] + got[i + 1..], start, now)
  {
  }

  /** Lists that are within a slot of each other are so socket by socket. */
  lemma GainsAreFair(sockets: seq<SocketRef>, got: seq<nat>, start: map<nat, nat>, now: map<nat, nat>, slot: nat)
    requires Gains(sockets, got, start, now) && WithinASlot(got, slot)
    ensures forall s, t :: Some(s) in sockets && Some(t) in sockets ==>
      Gain(s, start, now) <= Gain(t, start, now) + slot
  {
  }

  /** In the current pass the sockets before `itr` have had their slot. */
  ghost predicate TurnsTaken(got: seq<nat>, itr: nat, each: nat, slot: nat)
  {
    forall i :: 0 <= i < |got| ==> got[i] == each + if i < itr then slot else 0
  }

  ghost predicate WithinASlot(got: seq<nat>, slot: nat)
  {
    forall i, j :: 0 <= i < |got| && 0 <= j < |got| ==> got[i] <= got[j] + slot
  }

  lemma SlotsApart(got: seq<nat>, itr: nat, each: nat, slot: nat, turn: nat)
    requires TurnsTaken(got, itr, each, slot) && itr < |got| && turn <= slot
    ensures var got' := got[itr := got[itr] + turn];
            && WithinASlot(got', slot)
            && (turn == slot ==> TurnsTaken(got', itr + 1, each, slot))
            && (turn == slot && itr + 1 == |got| ==> TurnsTaken(got', 0, each + slot, slot))
    ensures var got' := got[..itr] + got[itr + 1..];
            && WithinASlot(got', slot) && TurnsTaken(got', itr, each, slot)
            && (itr == |got'| ==> TurnsTaken(got', 0, each + slot, slot))
  {
  }

  // ----- Sums over the groups

  function Sum(s: seq<nat>): nat
  {
    if s == [] then 0 else Sum(s[..|s| - 1]) + s[|s| - 1]
  }

  lemma {:induction false} SumUpdate(s: seq<nat>, i: nat, x: nat)
    requires i < |s|
    ensures Sum(s[i := x]) == Sum(s) - s[i] + x
    decreases |s|
  {
    var n := |s| - 1;
    if i < n {
      SumUpdate(s[..n], i, x);
      assert s[i := x][..n] == s[..n][i := x];
    } else {
      assert s[i := x][..n] == s[..n];
    }
  }

  // ----- The assured amounts

  /** A group at the start of a round: its own allowance if it has a limit, its assured amount, and
      whether any of its sockets is ready. */
  datatype Claim = Claim(own: Option<nat>, assured: nat, ready: bool)
  {
    predicate HasTurn() { ready && assured > 0 }

    predicate CanMove() { HasTurn() && own != Some(0) }

    /** The most that it can take from the global allowance. */
    function Reach(): nat { if !HasTurn() then 0 else if own.Some? then Min(own.value, assured) else assured }

    /** It may move `n` bytes if `allowance` is left: an offer of 0 is no limit. */
    predicate May(allowance: nat, n: nat)
    {
      && (!HasTurn() ==> n == 0)
      && (own.Some? ==> n <= own.value)
      && (Min(assured, allowance) > 0 ==> n <= Min(assured, allowance))
    }

    /** What is left of the allowance then; what is moved without a limit is not subtracted. */
    function Left(allowance: nat, n: nat): nat { if HasTurn() && allowance > 0 then Minus(allowance, n) else allowance }
  }

  /** What is left after the groups moved `ns`. */
  function LeftOf(cs: seq<Claim>, ns: seq<nat>, allowance: nat): nat
    requires |ns| == |cs|
  {
    if cs == [] then allowance
    else var k := |cs| - 1; cs[k].Left(LeftOf(cs[..k], ns[..k], allowance), ns[k])
  }

  /** The groups may move `ns` in their assured steps. */
  predicate Run(cs: seq<Claim>, ns: seq<nat>, allowance: nat)
  {
    && |ns| == |cs|
    && (cs == [] ||
        var k := |cs| - 1;
        Run(cs[..k], ns[..k], allowance) && cs[k].May(LeftOf(cs[..k], ns[..k], allowance), ns[k]))
  }

  /** What is left if every group takes all that it can. */
  function Least(cs: seq<Claim>, allowance: nat): nat
  {
    if cs == [] then allowance else Minus(Least(cs[..|cs| - 1], allowance), cs[|cs| - 1].Reach())
  }

  /** Whenever a group that can move something has its turn, something is left. */
  predicate Covered(cs: seq<Claim>, allowance: nat)
  {
    || cs == []
    || var k := |cs| - 1;
       Covered(cs[..k], allowance) && (cs[k].CanMove() ==> Least(cs[..k], allowance) > 0)
  }

  /** Then every run moves exactly what it takes off the allowance. */
  lemma {:induction false} CoveredRun(cs: seq<Claim>, ns: seq<nat>, allowance: nat)
    requires Covered(cs, allowance) && Run(cs, ns, allowance)
    ensures Sum(ns) + LeftOf(cs, ns, allowance) == allowance
    ensures LeftOf(cs, ns, allowance) >= Least(cs, allowance)
    decreases |cs|
  {
    if cs != [] {
      CoveredRun(cs[..|cs| - 1], ns[..|cs| - 1], allowance);
    }
  }

  /** In any case a run moves what it takes off the allowance. */
  lemma {:induction false} RunUsesAllowance(cs: seq<Claim>, ns: seq<nat>, allowance: nat)
    requires Run(cs, ns, allowance)
    ensures Sum(ns) + LeftOf(cs, ns, allowance) >= allowance
    decreases |cs|
  {
    if cs != [] {
      RunUsesAllowance(cs[..|cs| - 1], ns[..|cs| - 1], allowance);
    }
  }

  /** What all groups together can take. */
  function ReachSum(cs: seq<Claim>): nat
  {
    if cs == [] then 0 else ReachSum(cs[..|cs| - 1]) + cs[|cs| - 1].Reach()
  }

  lemma {:induction false} ReachIsCovered(cs: seq<Claim>, allowance: nat)
    requires ReachSum(cs) <= allowance
    ensures Covered(cs, allowance) && Least(cs, allowance) == allowance - ReachSum(cs)
    decreases |cs|
  {
    if cs != [] {
      ReachIsCovered(cs[..|cs| - 1], allowance);
    }
  }

  /** Then every group finds as much as it can take. */
  lemma EnoughIsLeft(cs: seq<Claim>, ns: seq<nat>, i: nat, allowance: nat)
    requires i < |cs| == |ns| && Run(cs[..i], ns[..i], allowance)
    ensures ReachSum(cs[..i + 1]) <= allowance ==> LeftOf(cs[..i], ns[..i], allowance) >= cs[i].Reach()
  {
    hide Claim.Reach, Run;
    assert cs[..i + 1][..i] == cs[..i];
    if ReachSum(cs[..i + 1]) <= allowance {
      ReachIsCovered(cs[..i], allowance);
      CoveredRun(cs[..i], ns[..i], allowance);
    }
  }

  /** Some run takes as much as possible. */
  lemma {:induction false} GreedyRun(cs: seq<Claim>, allowance: nat) returns (ns: seq<nat>)
    requires Covered(cs, allowance)
    ensures Run(cs, ns, allowance) && LeftOf(cs, ns, allowance) == Least(cs, allowance)
    decreases |cs|
  {
    if cs == [] {
      ns := [];
    } else {
      var k := |cs| - 1;
      var init := GreedyRun(cs[..k], allowance);
      ns := init + [Min(cs[k].Reach(), Least(cs[..k], allowance))];
      assert ns[..k] == init;
    }
  }

  /** Without that, some run moves more than the allowance. */
  lemma {:induction false} UncoveredRun(cs: seq<Claim>, allowance: nat) returns (ns: seq<nat>)
    requires !Covered(cs, allowance)
    ensures Run(cs, ns, allowance) && Sum(ns) > allowance
    decreases |cs|
  {
    var k := |cs| - 1;
    if !Covered(cs[..k], allowance) {
      var init := UncoveredRun(cs[..k], allowance);
      ns := init + [0];
      assert ns[..k] == init;
    } else {
      var init := GreedyRun(cs[..k], allowance);
      CoveredRun(cs[..k], init, allowance);
      ns := init + [1];
      assert ns[..k] == init;
    }
  }

  /** So the assured amounts are certain to stay within the global allowance exactly if they are
      covered by it. */
  lemma CoveredExactly(cs: seq<Claim>, allowance: nat)
    ensures Covered(cs, allowance) <==> forall ns :: Run(cs, ns, allowance) ==> Sum(ns) <= allowance
  {
    if Covered(cs, allowance) {
      forall ns | Run(cs, ns, allowance) ensures Sum(ns) <= allowance {
        CoveredRun(cs, ns, allowance);
      }
    } else {
      var ns := UncoveredRun(cs, allowance);
    }
  }

  /** For example, a second group with an assured rate when the first has used up the allowance. */
  lemma SecondGroupIsNotCovered(allowance: nat)
    ensures !Covered([Claim(None, allowance, true), Claim(None, 1, true)], allowance)
  {
    var cs := [Claim(None, allowance, true), Claim(None, 1, true)];
    assert cs[..1] == [cs[0]] && cs[..1][..0] == [];
    assert Least([], allowance) == allowance;
    assert Least(cs[..1], allowance) == 0;
  }

  /** A group's limit and allowance in a round, and its sockets that were ready. */
  datatype Part = Part(limit: nat, allowance: nat, ready: set<nat>)

  class NetworkThread {
    const groups: seq<SocketGroup>

    ghost predicate Valid()
      reads groups
    {
      && (forall i :: 0 <= i < |groups| ==> groups[i].Valid())
      && forall i, j :: 0 <= i < j < |groups| ==> groups[i] != groups[j]
    }

    ghost predicate NoneForgotten()
      reads groups
    {
      forall i :: 0 <= i < |groups| ==> groups[i].NoneForgotten()
    }

    ghost predicate Done()
      reads groups
    {
      forall i :: 0 <= i < |groups| ==> groups[i].Done()
    }

    ghost function Moves(): seq<nat>
      reads groups
    {
      seq(|groups|, i requires 0 <= i < |groups| reads groups => groups[i].moved)
    }

    /** What each group starts the round with, given the amounts computed for it. */
    ghost function ClaimOf(g: SocketGroup, amounts: (nat, nat)): Claim
      reads g
    {
      Claim(if g.limit > 0 then Some(amounts.0) else None, amounts.1, !AllNull(g.sockets))
    }

    ghost function Claims(amounts: seq<(nat, nat)>): seq<Claim>
      requires |amounts| == |groups|
      reads groups
    {
      seq(|groups|, i requires 0 <= i < |groups| reads groups => ClaimOf(groups[i], amounts[i]))
    }

    /** Bytes moved by all groups in this round. */
    ghost function Total(): nat
      reads groups
    {
      Sum(Moves())
    }

    /** What a round is based on. */
    ghost function Plan(): seq<Part>
      reads groups
    {
      seq(|groups|, i requires 0 <= i < |groups| reads groups => Part(groups[i].limit, groups[i].computed, groups[i].ready))
    }

    constructor (groups: seq<SocketGroup>)
      requires forall i :: 0 <= i < |groups| ==> groups[i].Valid()
      requires forall i, j :: 0 <= i < j < |groups| ==> groups[i] != groups[j]
      ensures Valid() && this.groups == groups
    {
      this.groups := groups;
    }

    /** Every group with a limit stays within the allowance computed for it. */
    lemma GroupsStayWithinTheirLimits(i: nat)
      requires Valid() && i < |groups| && groups[i].limit > 0
      ensures groups[i].moved <= groups[i].computed
    {
    }

    method DoGroup(i: nat, global: nat) returns (more: bool, left: nat)
      requires Valid() && i < |groups| && |groups[i].sockets| > 0
      modifies groups[i]
      ensures Valid() && Plan() == old(Plan()) && left <= global && Total() >= old(Total())
      ensures global > 0 ==> Total() == old(Total()) + (global - left)
      ensures global == 0 ==> left == 0
      ensures more ==> |groups[i].sockets| > 0 && Total() > old(Total())
      ensures groups[i].moved >= old(groups[i].moved) && (old(groups[i].Done()) ==> groups[i].Done())
      ensures old(NoneForgotten()) ==> NoneForgotten() && (more || groups[i].Done())
    {
      hide Sum;
      ghost var moves := Moves();
      more, left := groups[i].Process(global);
      SumUpdate(moves, i, groups[i].moved);
      assert Moves() == moves[i := groups[i].moved];
    }

    method ClearGroup(i: nat)
      requires Valid() && i < |groups|
      modifies {groups[i]}`sockets
      ensures Valid() && Plan() == old(Plan()) && Moves() == old(Moves()) && groups[i].sockets == []
    {
      groups[i].Clear();
    }

    /** One pass over the groups. */
    method DoGroupsLimited(allowance0: nat) returns (ready: bool, allowance: nat)
      requires Valid() && NoneForgotten()
      modifies groups
      ensures Valid() && NoneForgotten() && Plan() == old(Plan()) && allowance <= allowance0
      ensures Total() == old(Total()) + (allowance0 - allowance)
      ensures ready ==> allowance < allowance0
      ensures ready || allowance == 0 || Done()
      ensures forall i :: 0 <= i < |groups| ==> groups[i].moved >= old(groups[i].moved) && (old(groups[i].Done()) ==> groups[i].Done())
    {
      hide Sum, SocketGroup.NoneForgotten, SocketGroup.Done, SocketGroup.Valid;
      allowance := allowance0;
      var numStillReady: nat := 0;
      var itr := 0;
      while itr < |groups| && allowance > 0
        invariant itr <= |groups| && Valid() && NoneForgotten() && Plan() == old(Plan()) && allowance <= allowance0
        invariant Total() == old(Total()) + (allowance0 - allowance)
        invariant numStillReady > 0 ==> allowance < allowance0
        invariant numStillReady == 0 ==> forall j :: 0 <= j < itr ==> groups[j].Done()
        invariant forall j :: 0 <= j < |groups| ==> groups[j].moved >= old(groups[j].moved) && (old(groups[j].Done()) ==> groups[j].Done())
      {
        var still;
        still, allowance := GroupTurn(itr, allowance);
        numStillReady := numStillReady + still;
        itr := itr + 1;
      }
      ready := numStillReady > 0;
    }

    /** One group in the pass. It gets an arbitrary share, cut to between 1 and what is left. */
    method GroupTurn(i: nat, allowance0: nat) returns (stillReady: nat, allowance: nat)
      requires Valid() && NoneForgotten() && i < |groups| && allowance0 > 0
      modifies groups[i]
      ensures Valid() && NoneForgotten() && Plan() == old(Plan()) && allowance <= allowance0
      ensures Total() == old(Total()) + (allowance0 - allowance)
      ensures if stillReady > 0 then allowance < allowance0 else groups[i].Done()
      ensures stillReady == |groups[i].sockets|
      ensures groups[i].moved >= old(groups[i].moved) && (old(groups[i].Done()) ==> groups[i].Done())
    {
      hide Sum;
      stillReady, allowance := 0, allowance0;
      var g := groups[i];
      if |g.sockets| > 0 {
        var groupAllowance: nat := *;
        if groupAllowance > allowance || groupAllowance == 0 {
          groupAllowance := allowance;
        }
        var more, ga := DoGroup(i, groupAllowance);
        if !more {
          ClearGroup(i);
        } else {
          stillReady := |g.sockets|;
        }
        var done := groupAllowance - ga;
        allowance := Minus(allowance, done);
      }
    }

    /** calcAllowance for one group, with amounts that clocks and rates determine. */
    method StartGroup(i: nat, amounts: (nat, nat))
      requires Valid() && i < |groups|
      modifies groups[i]
      ensures Valid() && Moves() == old(Moves())[i := 0] && groups[i].moved == 0
      ensures groups[i].limit == old(groups[i].limit) && groups[i].sockets == old(groups[i].sockets)
      ensures groups[i].computed == (if groups[i].limit > 0 then amounts.0 else 0) && groups[i].groupAssured == amounts.1
      ensures groups[i].NoneForgotten() && forall s :: s in groups[i].ready <==> Some(s) in old(groups[i].sockets)
    {
      groups[i].CalcAllowance(amounts.0, amounts.1);
    }

    /** A round without a global limit: first the assured amounts, then whatever the groups'
        own limits allow. */
    method DoGroupsUnlimited(amounts: seq<(nat, nat)>)
      requires Valid() && |amounts| == |groups|
      modifies groups
      ensures Valid() && Done()
      ensures forall i, s :: 0 <= i < |groups| ==> (s in groups[i].ready <==> Some(s) in old(groups[i].sockets))
      ensures forall i :: 0 <= i < |groups| ==> groups[i].limit == old(groups[i].limit)
      ensures forall i :: 0 <= i < |groups| && groups[i].limit > 0 ==> groups[i].computed == amounts[i].0 && groups[i].moved <= amounts[i].0
    {
      StartAll(amounts);
      FinishAll();
    }

    method StartAll(amounts: seq<(nat, nat)>)
      requires Valid() && |amounts| == |groups|
      modifies groups
      ensures Valid() && NoneForgotten()
      ensures forall i :: 0 <= i < |groups| ==> groups[i].Got(amounts[i].1)
      ensures forall i, s :: 0 <= i < |groups| ==> (s in groups[i].ready <==> Some(s) in old(groups[i].sockets))
      ensures forall i :: 0 <= i < |groups| ==> groups[i].limit == old(groups[i].limit)
      ensures forall i :: 0 <= i < |groups| && groups[i].limit > 0 ==> groups[i].computed == amounts[i].0
    {
      hide SocketGroup.NoneForgotten, SocketGroup.Valid, SocketGroup.Got;
      for i := 0 to |groups|
        invariant Valid()
        invariant forall j :: 0 <= j < i ==> groups[j].Got(amounts[j].1)
        invariant forall j :: 0 <= j < |groups| ==> groups[j].limit == old(groups[j].limit)
        invariant forall j :: 0 <= j < i && groups[j].limit > 0 ==> groups[j].computed == amounts[j].0
        invariant forall j :: 0 <= j < i ==> groups[j].NoneForgotten()
        invariant forall j :: i <= j < |groups| ==> groups[j].sockets == old(groups[j].sockets)
        invariant forall j, s :: 0 <= j < i ==> (s in groups[j].ready <==> Some(s) in old(groups[j].sockets))
      {
        StartOne(i, amounts[i]);
      }
    }

    method StartOne(i: nat, amounts: (nat, nat))
      requires Valid() && i < |groups|
      modifies groups[i]
      ensures Valid() && groups[i].limit == old(groups[i].limit) && groups[i].Got(amounts.1) && groups[i].moved <= amounts.1
      ensures groups[i].limit > 0 ==> groups[i].computed == amounts.0
      ensures groups[i].NoneForgotten() && forall s :: s in groups[i].ready <==> Some(s) in old(groups[i].sockets)
    {
      StartGroup(i, amounts);
      if |groups[i].sockets| > 0 && groups[i].groupAssured > 0 {
        var _, _ := groups[i].Process(groups[i].groupAssured);
      }
    }

    method FinishAll()
      requires Valid() && NoneForgotten()
      modifies groups`sockets, groups`moved, groups`groupAllowance, groups`drained, groups`movedBy
      ensures Valid() && Done()
    {
      for i := 0 to |groups|
        invariant Valid() && NoneForgotten()
        invariant forall j :: 0 <= j < i ==> groups[j].Done()
      {
        if |groups[i].sockets| > 0 {
          var _, _ := groups[i].Process(0);
          groups[i].Clear();
        }
      }
    }

    /** Starts the round for one group and gives it its assured amount, but not more than is left.
        If nothing is left, 0 is passed on, which the group takes for "no limit". */
    method AssuredStep(i: nat, amounts: (nat, nat), allowance0: nat) returns (allowance: nat)
      requires Valid() && i < |groups|
      modifies groups[i]
      ensures Valid() && Moves() == old(Moves())[i := groups[i].moved]
      ensures groups[i].limit == old(groups[i].limit)
      ensures var c := old(ClaimOf(groups[i], amounts));
        && c.May(allowance0, groups[i].moved) && allowance == c.Left(allowance0, groups[i].moved)
        && (c.HasTurn() ==> (allowance0 > 0 && groups[i].moved == Min(amounts.1, allowance0)) || groups[i].Done())
        && (allowance0 >= c.Reach() ==> groups[i].Got(amounts.1))
      ensures groups[i].limit > 0 ==> groups[i].computed == amounts.0
      ensures groups[i].NoneForgotten() && forall s :: s in groups[i].ready <==> Some(s) in old(groups[i].sockets)
    {
      hide Sum;
      allowance := allowance0;
      StartGroup(i, amounts);
      if |groups[i].sockets| > 0 && groups[i].groupAssured > 0 {
        var assured := groups[i].groupAssured;
        if assured > allowance {
          assured := allowance;
        }
        var tmp := assured;
        var _, left := groups[i].Process(assured);
        allowance := allowance - (tmp - left);
      }
    }

    /** The step continues the run of the steps before it. */
    method NextAssuredStep(i: nat, amounts: (nat, nat), left: nat, ghost cs: seq<Claim>, ghost allowance0: nat) returns (allowance: nat)
      requires Valid() && i < |groups| == |cs| && cs[i] == ClaimOf(groups[i], amounts)
      requires Run(cs[..i], Moves()[..i], allowance0) && left == LeftOf(cs[..i], Moves()[..i], allowance0)
      modifies groups[i]
      ensures Valid() && groups[i].limit == old(groups[i].limit)
      ensures groups[i].limit > 0 ==> groups[i].computed == amounts.0
      ensures groups[i].NoneForgotten() && forall s :: s in groups[i].ready <==> Some(s) in old(groups[i].sockets)
      ensures Run(cs[..i + 1], Moves()[..i + 1], allowance0) && allowance == LeftOf(cs[..i + 1], Moves()[..i + 1], allowance0)
      ensures ReachSum(cs[..i + 1]) <= allowance0 ==> groups[i].Got(cs[i].assured)
    {
      hide Sum, Run, LeftOf, Claim.May, Claim.Left, Claim.Reach, SocketGroup.NoneForgotten, SocketGroup.Valid, SocketGroup.Got, ReachSum;
      ghost var moves := Moves();
      EnoughIsLeft(cs, moves, i, allowance0);
      allowance := AssuredStep(i, amounts, left);
      assert Moves()[..i] == moves[..i];
      RunGrows(cs, Moves(), i, allowance0);
    }

    method AssuredSteps(allowance0: nat, amounts: seq<(nat, nat)>) returns (allowance: nat)
      requires Valid() && |amounts| == |groups|
      modifies groups
      ensures Valid()
      ensures forall i :: 0 <= i < |groups| ==> groups[i].limit == old(groups[i].limit)
      ensures forall i :: 0 <= i < |groups| && groups[i].limit > 0 ==> groups[i].computed == amounts[i].0
      ensures NoneForgotten()
      ensures forall i, s :: 0 <= i < |groups| ==> (s in groups[i].ready <==> Some(s) in old(groups[i].sockets))
      ensures var cs := old(Claims(amounts));
        Run(cs, Moves(), allowance0) && allowance == LeftOf(cs, Moves(), allowance0)
      ensures Assured(old(Claims(amounts)), allowance0)
    {
      hide Sum, Run, LeftOf, Claim.May, Claim.Left, Claim.Reach, SocketGroup.NoneForgotten, SocketGroup.Valid, SocketGroup.Got, ReachSum;
      ghost var cs := Claims(amounts);
      allowance := allowance0;
      EmptyRun(allowance0);
      assert cs[..0] == [] && Moves()[..0] == [];
      for i := 0 to |groups|
        invariant Valid()
        invariant forall j :: 0 <= j < |groups| ==> groups[j].limit == old(groups[j].limit)
        invariant forall j :: 0 <= j < i && groups[j].limit > 0 ==> groups[j].computed == amounts[j].0
        invariant forall j :: 0 <= j < i ==> groups[j].NoneForgotten()
        invariant forall j :: i <= j < |groups| ==> groups[j].sockets == old(groups[j].sockets)
        invariant forall j, s :: 0 <= j < i ==> (s in groups[j].ready <==> Some(s) in old(groups[j].sockets))
        invariant forall j :: 0 <= j < i && ReachSum(cs[..j + 1]) <= allowance0 ==> groups[j].Got(cs[j].assured)
        invariant Run(cs[..i], Moves()[..i], allowance0) && allowance == LeftOf(cs[..i], Moves()[..i], allowance0)
      {
        assert ClaimOf(groups[i], amounts[i]) == cs[i];
        allowance := NextAssuredStep(i, amounts[i], allowance, cs, allowance0);
      }
      assert Moves()[..|groups|] == Moves() && cs[..|groups|] == cs;
    }

    /** Every group has moved its assured amount or can do no more, if the allowance suffices for
        what it and the groups before it can take. */
    ghost predicate Assured(cs: seq<Claim>, allowance: nat)
      requires |cs| == |groups|
      reads groups
    {
      forall i :: 0 <= i < |groups| && ReachSum(cs[..i + 1]) <= allowance ==> groups[i].Got(cs[i].assured)
    }

    /** A round under a global limit: assured amounts, then passes over the groups until nobody is
        ready or the allowance is gone. Allowance stays unused only when nobody can use it. */
    method DoGroups(allowance0: nat, ready0: bool, amounts: seq<(nat, nat)>)
      requires Valid() && |amounts| == |groups|
      modifies groups
      ensures Valid()
      ensures forall i :: 0 <= i < |groups| ==> groups[i].limit == old(groups[i].limit) && groups[i].sockets == []
      ensures forall i :: 0 <= i < |groups| && groups[i].limit > 0 ==> groups[i].computed == amounts[i].0 && groups[i].moved <= amounts[i].0
      // the global limit holds if it covers the assured amounts
      ensures Covered(old(Claims(amounts)), allowance0) ==> Total() <= allowance0
      ensures forall i, s :: 0 <= i < |groups| ==> (s in groups[i].ready <==> Some(s) in old(groups[i].sockets))
      ensures ready0 && Total() < allowance0 ==> Done()
      ensures Assured(old(Claims(amounts)), allowance0)
    {
      hide Sum, Run, LeftOf, Covered, ReachSum, Claim.Reach, SocketGroup.NoneForgotten, SocketGroup.Done;
      ghost var cs := Claims(amounts);
      var allowance := AssuredSteps(allowance0, amounts);
      ghost var plan := Plan();
      RunUsesAllowance(cs, Moves(), allowance0);
      if Covered(cs, allowance0) {
        CoveredRun(cs, Moves(), allowance0);
      }
      allowance := Passes(allowance, ready0);
      ClearAll();
      forall i | 0 <= i < |groups|
        ensures groups[i].ready == plan[i].ready
        ensures groups[i].limit == old(groups[i].limit) && (groups[i].limit > 0 ==> groups[i].computed == amounts[i].0)
      {
        assert Plan()[i] == plan[i];
      }
    }

    /** Passes over the groups until nobody is ready or the allowance is gone. */
    method Passes(allowance0: nat, ready0: bool) returns (allowance: nat)
      requires Valid() && NoneForgotten()
      modifies groups
      ensures Valid() && Plan() == old(Plan())
      ensures Total() + allowance == old(Total()) + allowance0
      ensures ready0 && allowance > 0 ==> Done()
      ensures forall i :: 0 <= i < |groups| ==> groups[i].moved >= old(groups[i].moved) && (old(groups[i].Done()) ==> groups[i].Done())
    {
      hide Sum, SocketGroup.NoneForgotten, SocketGroup.Done, SocketGroup.Valid;
      allowance := allowance0;
      var ready := ready0;
      while allowance > 0 && ready
        invariant Valid() && NoneForgotten() && Plan() == old(Plan())
        invariant Total() + allowance == old(Total()) + allowance0
        invariant ready0 && !ready && allowance > 0 ==> Done()
        invariant forall i :: 0 <= i < |groups| ==> groups[i].moved >= old(groups[i].moved) && (old(groups[i].Done()) ==> groups[i].Done())
        decreases allowance + if ready then 1 else 0
      {
        ready, allowance := DoGroupsLimited(allowance);
      }
    }

    method ClearAll()
      requires Valid()
      modifies groups`sockets
      ensures Valid() && Plan() == old(Plan()) && Moves() == old(Moves())
      ensures forall i :: 0 <= i < |groups| ==> groups[i].sockets == []
      ensures forall i :: 0 <= i < |groups| ==> groups[i].moved >= old(groups[i].moved) && (old(groups[i].Done()) ==> groups[i].Done())
    {
      for i := 0 to |groups|
        invariant Valid() && Plan() == old(Plan()) && Moves() == old(Moves())
        invariant forall j :: 0 <= j < i ==> groups[j].sockets == []
        invariant forall j :: 0 <= j < |groups| ==> groups[j].moved >= old(groups[j].moved) && (old(groups[j].Done()) ==> groups[j].Done())
      {
        ClearGroup(i);
      }
    }
  }

  lemma EmptyRun(allowance: nat)
    ensures Run([], [], allowance) && LeftOf([], [], allowance) == allowance
  {
  }

  lemma RunGrows(cs: seq<Claim>, ns: seq<nat>, i: nat, allowance: nat)
    requires i < |cs| == |ns| && Run(cs[..i], ns[..i], allowance)
    requires cs[i].May(LeftOf(cs[..i], ns[..i], allowance), ns[i])
    ensures Run(cs[..i + 1], ns[..i + 1], allowance)
    ensures LeftOf(cs[..i + 1], ns[..i + 1], allowance) == cs[i].Left(LeftOf(cs[..i], ns[..i], allowance), ns[i])
  {
    assert cs[..i + 1][..i] == cs[..i] && ns[..i + 1][..i] == ns[..i];
  }
}
