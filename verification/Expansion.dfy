/** Expanding the volume: every replica grows, fails and rolls back, or fails without a rollback, and
    the controller decides which replicas are out of sync.
 */
module Expansions {
  import opened Controllers

  /** How one replica answers an expansion request. */
  datatype Outcome = Expanded | RolledBack | Unknown(left: nat)

  type Sizes = map<Addr, nat>
  type Outcomes = map<Addr, Outcome>

  /** A replica already larger refuses with an error that promises no rollback; one that has the size
      reports success. */
  function Answer(cur: nat, size: nat, o: Outcome): Outcome {
    if cur > size then Unknown(cur) else if cur == size then Expanded else o
  }

  function SizeAfter(cur: nat, size: nat, o: Outcome): nat {
    match Answer(cur, size, o)
    case Expanded => size
    case RolledBack => cur
    case Unknown(left) => left
  }

  /** The sizes of the replicas that were asked, all those not in ERR. */
  function Grown(modes: Modes, sizes: Sizes, outcomes: Outcomes, size: nat): Sizes
    requires Writers(modes) <= sizes.Keys && Writers(modes) <= outcomes.Keys
  {
    map a | a in sizes :: if a in Writers(modes) then SizeAfter(sizes[a], size, outcomes[a]) else sizes[a]
  }

  /** The asked replicas that did not expand, and those of them that promised no rollback. */
  function Failed(modes: Modes, sizes: Sizes, outcomes: Outcomes, size: nat): set<Addr>
    requires Writers(modes) <= sizes.Keys && Writers(modes) <= outcomes.Keys
  {
    set a | a in Writers(modes) && !Answer(sizes[a], size, outcomes[a]).Expanded?
  }

  function NotRolledBack(modes: Modes, sizes: Sizes, outcomes: Outcomes, size: nat): set<Addr>
    requires Writers(modes) <= sizes.Keys && Writers(modes) <= outcomes.Keys
  {
    set a | a in Writers(modes) && Answer(sizes[a], size, outcomes[a]).Unknown?
  }

  /** Asks every backend that is not in ERR.  If only some failed, all that failed are out of sync; if
      all failed, only those that did not roll back are. */
  method ExpandBackends(modes: Modes, sizes: Sizes, outcomes: Outcomes, size: nat)
    returns (success: bool, outOfSync: set<Addr>, errs: set<Addr>)
    requires Writers(modes) <= sizes.Keys && Writers(modes) <= outcomes.Keys
    ensures errs == Failed(modes, sizes, outcomes, size)
    ensures success <==> errs != Writers(modes) || Writers(modes) == {}
    ensures outOfSync == if success then errs else NotRolledBack(modes, sizes, outcomes, size)
    ensures success <==> SomeSucceeds(modes, sizes, outcomes, size) || Writers(modes) == {}
    ensures outOfSync <= Writers(modes) && forall a | a in Writers(modes) ::
              a !in outOfSync <==> if success then Succeeds(sizes[a], size, outcomes[a])
                                   else Undone(sizes[a], size, outcomes[a])
  {
    hide *;
    var unknown, count;
    errs, unknown, count := AskBackends(modes, sizes, outcomes, size);
    SubsetSize(errs, Writers(modes));
    WhoStays(modes, sizes, outcomes, size);
    if errs != {} {
      if |errs| < count {
        return true, errs, errs;
      }
      return false, unknown, errs;
    }
    return true, {}, errs;
  }

  method AskBackends(modes: Modes, sizes: Sizes, outcomes: Outcomes, size: nat)
    returns (errs: set<Addr>, unknown: set<Addr>, count: nat)
    requires Writers(modes) <= sizes.Keys && Writers(modes) <= outcomes.Keys
    ensures errs == Failed(modes, sizes, outcomes, size) && errs <= Writers(modes)
    ensures unknown == NotRolledBack(modes, sizes, outcomes, size) && count == |Writers(modes)|
  {
    var all := Writers(modes);
    ghost var failing, unsynced := Failed(modes, sizes, outcomes, size), NotRolledBack(modes, sizes, outcomes, size);
    assert failing <= all && unsynced <= all;
    errs, unknown, count := {}, {}, 0;
    var todo := all;
    while todo != {}
      invariant todo <= all && count == |all| - |todo|
      invariant errs == failing - todo && unknown == unsynced - todo
      decreases |todo|
    {
      var a :| a in todo;
      count := count + 1;
      var answer := Answer(sizes[a], size, outcomes[a]);
      assert (a in failing <==> !answer.Expanded?) && (a in unsynced <==> answer.Unknown?);
      hide *;
      if !answer.Expanded? {
        errs := errs + {a};
        if !answer.RolledBack? {
          unknown := unknown + {a};
        }
      }
      todo := todo - {a};
    }
  }

  lemma SubsetSize(s: set<Addr>, t: set<Addr>)
    requires s <= t
    ensures |s| <= |t| && (|s| == |t| <==> s == t)
  {
    assert t == s + (t - s);
    assert |t| == |s| + |t - s|;
  }

  /** All replicas not in ERR have one size, and it is not below the controller's. */
  ghost predicate OneSize(modes: Modes, sizes: Sizes, size: nat) {
    && Writers(modes) <= sizes.Keys
    && forall a, b | a in Writers(modes) && b in Writers(modes) :: sizes[a] == sizes[b] >= size
  }

  /** Agreement: after the error handling the replicas left all have the new size if some replica
      succeeded, and all kept their old size otherwise. */
  lemma ExpansionAgreement(modes: Modes, sizes: Sizes, outcomes: Outcomes, size: nat, controller: nat,
                           success: bool, outOfSync: set<Addr>, errs: set<Addr>)
    requires OneSize(modes, sizes, controller) && Writers(modes) <= outcomes.Keys
    requires errs == Failed(modes, sizes, outcomes, size)
    requires success <==> errs != Writers(modes) || Writers(modes) == {}
    requires outOfSync == if success then errs else NotRolledBack(modes, sizes, outcomes, size)
    ensures var modes', sizes' := WithErrors(modes, outOfSync), Grown(modes, sizes, outcomes, size);
            && (forall a | a in Writers(modes') :: sizes'[a] == if success then size else sizes[a])
            && (controller <= size ==> OneSize(modes', sizes', if success then size else controller))
  {
    var modes' := WithErrors(modes, outOfSync);
    forall a | a in Writers(modes')
      ensures a in Writers(modes) && Grown(modes, sizes, outcomes, size)[a] == if success then size else sizes[a]
    {
      assert a !in outOfSync;
    }
  }

  /** Replicas keep their mode or go to ERR. */
  ghost predicate Stays(modes: Modes, modes': Modes) {
    modes'.Keys == modes.Keys && forall a | a in modes :: modes'[a] == modes[a] || modes'[a] == ERR
  }

  lemma AllStay(modes: Modes, modes': Modes)
    requires Stays(modes, modes')
    ensures Writers(modes) <= Writers(modes') ==> modes' == modes
  {
    if Writers(modes) <= Writers(modes') {
      assert forall a | a in modes :: modes[a] != ERR ==> a in Writers(modes);
    }
  }

  /** The replica of size `cur` has the new size afterwards and says so. */
  ghost predicate Succeeds(cur: nat, size: nat, o: Outcome) {
    cur == size || (cur < size && o == Expanded)
  }

  /** The replica of size `cur` fails and is known to be as before. */
  ghost predicate Undone(cur: nat, size: nat, o: Outcome) {
    cur < size && o == RolledBack
  }

  ghost predicate SomeSucceeds(modes: Modes, sizes: Sizes, outcomes: Outcomes, size: nat)
    requires Writers(modes) <= sizes.Keys && Writers(modes) <= outcomes.Keys
  {
    exists a | a in Writers(modes) :: Succeeds(sizes[a], size, outcomes[a])
  }

  /** Which replicas stay in use: those that succeed if any does, otherwise those that are as before. */
  lemma WhoStays(modes: Modes, sizes: Sizes, outcomes: Outcomes, size: nat)
    requires Writers(modes) <= sizes.Keys && Writers(modes) <= outcomes.Keys
    ensures var errs, unknown := Failed(modes, sizes, outcomes, size), NotRolledBack(modes, sizes, outcomes, size);
            && errs <= Writers(modes) && unknown <= Writers(modes)
            && (errs != Writers(modes) <==> SomeSucceeds(modes, sizes, outcomes, size))
            && (forall a | a in Writers(modes) :: a !in errs <==> Succeeds(sizes[a], size, outcomes[a]))
            && (errs == Writers(modes) ==>
                  forall a | a in Writers(modes) :: a !in unknown <==> Undone(sizes[a], size, outcomes[a]))
  {
    var errs := Failed(modes, sizes, outcomes, size);
    assert forall a | a in Writers(modes) :: a in errs <==> !Succeeds(sizes[a], size, outcomes[a]);
    if errs != Writers(modes) {
      var a :| a in Writers(modes) && a !in errs;
    }
  }

  class Volume {
    var size: nat
    var isExpanding: bool
    var modes: Modes
    var sizes: Sizes

    ghost predicate Valid()
      reads this
    {
      OneSize(modes, sizes, size)
    }

    constructor (size: nat, modes: Modes, sizes: Sizes)
      requires OneSize(modes, sizes, size)
      ensures Valid() && this.size == size && this.modes == modes && this.sizes == sizes && !isExpanding
    {
      this.size, this.modes, this.sizes, this.isExpanding := size, modes, sizes, false;
    }

    method StartExpansion(newSize: nat) returns (ok: bool)
      modifies this`isExpanding
      ensures ok <==> !old(isExpanding) && newSize % 4096 == 0 && size <= newSize
      ensures isExpanding <==> old(isExpanding) || (ok && size < newSize)
    {
      if isExpanding {
        return false;
      }
      if newSize % 4096 != 0 {
        return false;
      }
      if size == newSize {
        return true;
      }
      if size > newSize {
        return false;
      }
      isExpanding := true;
      return true;
    }

    /** Asks the replicas and puts those into ERR that are out of sync: if some replica succeeds, those that do not,
        otherwise those that are not known to be as before. */
    method ExpandReplicas(newSize: nat, outcomes: Outcomes) returns (success: bool)
      requires Valid() && Writers(modes) <= outcomes.Keys && size <= newSize
      modifies this`modes, this`sizes
      ensures success <==> Writers(old(modes)) == {} || SomeSucceeds(old(modes), old(sizes), outcomes, newSize)
      ensures OneSize(modes, sizes, if success then newSize else size) && Stays(old(modes), modes)
      ensures forall a | a in Writers(old(modes)) ::
                && a in old(sizes) && a in outcomes
                && (a in Writers(modes) <==> if success then Succeeds(old(sizes)[a], newSize, outcomes[a])
                                             else Undone(old(sizes)[a], newSize, outcomes[a]))
      ensures forall a | a in Writers(modes) ::
                a in old(sizes) && a in sizes && sizes[a] == if success then newSize else old(sizes)[a]
    {
      var outOfSync, errs;
      success, outOfSync, errs := ExpandBackends(modes, sizes, outcomes, newSize);
      ExpansionAgreement(modes, sizes, outcomes, newSize, size, success, outOfSync, errs);
      assert Writers(WithErrors(modes, outOfSync)) == Writers(modes) - outOfSync;
      hide OneSize, Succeeds, Undone, SomeSucceeds, NotRolledBack, Failed;
      sizes := Grown(modes, sizes, outcomes, newSize);
      modes := WithErrors(modes, outOfSync);
    }

    /** One whole expansion.  Replicas that are left agree on one size, at least the controller's,
        whatever each replica, the snapshot check and the frontend did; the controller's size never
        shrinks, and it becomes the new size only if a replica has it. */
    method Expand(newSize: nat, canSnapshot: bool, outcomes: Outcomes, frontendOk: bool) returns (started: bool)
      requires Valid() && Writers(modes) <= outcomes.Keys && !isExpanding
      modifies this
      ensures Valid() && !isExpanding
      ensures started <==> newSize % 4096 == 0 && old(size) <= newSize
      ensures size == if started && canSnapshot && frontendOk
                         && (Writers(old(modes)) == {} || SomeSucceeds(old(modes), old(sizes), outcomes, newSize))
                      then newSize else old(size)
      ensures old(size) <= size && Stays(old(modes), modes)
      ensures started && canSnapshot ==> forall a | a in Writers(old(modes)) ::
                && a in old(sizes) && a in outcomes
                && (a in Writers(modes) <==>
                      if SomeSucceeds(old(modes), old(sizes), outcomes, newSize)
                      then Succeeds(old(sizes)[a], newSize, outcomes[a])
                      else Undone(old(sizes)[a], newSize, outcomes[a]))
      ensures started && canSnapshot ==> forall a | a in Writers(modes) ::
                && a in old(sizes) && a in sizes
                && sizes[a] == if SomeSucceeds(old(modes), old(sizes), outcomes, newSize)
                               then newSize else old(sizes)[a]
      ensures (forall a | a in Writers(old(modes)) ::
                 a in old(sizes) && Undone(old(sizes)[a], newSize, outcomes[a])) ==> modes == old(modes)
      ensures !(started && canSnapshot) ==> modes == old(modes) && sizes == old(sizes) && size == old(size)
    {
      started := StartExpansion(newSize);
      if !started {
        return;
      }
      var expanded := false;
      if canSnapshot {
        expanded := ExpandReplicas(newSize, outcomes);
        AllStay(old(modes), modes);
      }
      if expanded && !frontendOk {
        expanded := false;
      }
      if expanded {
        size := newSize;
      }
      isExpanding := false;
    }
  }
}
