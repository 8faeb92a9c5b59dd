/** Values shared by every layer of the transport chain: the
    configured targets of a route, their network addresses, and the contract that a
    load balancer's choice has to meet whatever strategy produced it. */
module Targets {
  import opened Common

  /** A target's "host:port" address. It always holds the colon that net.JoinHostPort
      writes, so it is never the empty string; the retry loop relies on that. */
  type Address = s: string | s != "" witness ":0"

  /** config.Target: one upstream replica. Host and port occur only as the address. */
  datatype Target = Target(address: Address, weight: int)

  function Addresses(targets: seq<Target>): set<Address> {
    set t | t in targets :: t.address
  }

  predicate IsExcluded(excluded: set<Address>, t: Target) {
    t.address in excluded
  }

  /** What every strategy owes its caller: a configured target that is not excluded,
      or nothing at all exactly when every configured target is excluded. */
  predicate ValidSelection(targets: seq<Target>, excluded: set<Address>, choice: Option<Target>) {
    match choice
    case Some(t) => t in targets && !IsExcluded(excluded, t)
    case None => forall t | t in targets :: IsExcluded(excluded, t)
  }

  /** uniqueTargetCount: the number of distinct addresses behind a route. */
  method UniqueTargetCount(targets: seq<Target>) returns (count: nat)
    ensures count == |Addresses(targets)|
  {
    var unique: set<Address> := {};
    for i := 0 to |targets|
      invariant unique == Addresses(targets[..i])
    {
      unique := unique + {targets[i].address};
      assert targets[..i + 1] == targets[..i] + [targets[i]];
    }
    assert targets[..|targets|] == targets;
    count := |unique|;
  }

  /** While some configured address is not excluded, no valid selection comes back empty. */
  lemma StrictExclusionAlwaysSelects(targets: seq<Target>, excluded: set<Address>, choice: Option<Target>)
    requires ValidSelection(targets, excluded, choice)
    requires excluded < Addresses(targets)
    ensures choice.Some? && choice.value.address in Addresses(targets) - excluded
  {
    var a :| a in Addresses(targets) && a !in excluded;
    var t :| t in targets && t.address == a;
  }
}
