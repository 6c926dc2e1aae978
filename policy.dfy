/** `HashMapDetPolicy` (`policy.h`): a deterministic policy kept as a hash
    map from states to actions. The map may hold a null action for a state
    (`set(s, NULL)`), so a stored entry is an `Option`.
*/
module Policies {
  import opened Wrappers

  class HashMapDetPolicy<S(==,!new), A> {
    var hash: map<S, Option<A>>

    /** A new policy is defined nowhere. */
    constructor ()
      ensures hash == map[]
    {
      hash := map[];
    }

    /** `isDefinedFor(s)`: `s` has an entry. */
    predicate IsDefinedFor(s: S)
      reads this
    {
      s in hash
    }

    /** `action(s)`: the stored action, and null for a state without an
        entry. */
    function Action(s: S): (r: Option<A>)
      reads this
      ensures !IsDefinedFor(s) ==> r == None
      ensures IsDefinedFor(s) ==> r == hash[s]
    {
      if s in hash then hash[s] else None
    }

    /** `set(s, a)`: afterwards `s` is defined and maps to `a`; every other
        state keeps its entry. */
    method Set(s: S, a: Option<A>)
      modifies this
      ensures hash == old(hash)[s := a]
      ensures IsDefinedFor(s) && Action(s) == a
      ensures forall t :: t != s ==> (IsDefinedFor(t) <==> old(IsDefinedFor(t))) && Action(t) == old(Action(t))
    {
      hash := hash[s := a];
    }

    /** `unset(s)`: whether `s` was defined; afterwards it is not, and every
        other state keeps its entry. */
    method Unset(s: S) returns (wasDefined: bool)
      modifies this
      ensures wasDefined == old(IsDefinedFor(s))
      ensures hash == old(hash) - {s}
      ensures !IsDefinedFor(s) && Action(s) == None
      ensures forall t :: t != s ==> (IsDefinedFor(t) <==> old(IsDefinedFor(t))) && Action(t) == old(Action(t))
    {
      wasDefined := s in hash;
      hash := hash - {s};
    }

    /** `clear()`: afterwards no state is defined. */
    method Clear()
      modifies this
      ensures hash == map[]
      ensures forall t :: !IsDefinedFor(t) && Action(t) == None
    {
      hash := map[];
    }
  }
}
