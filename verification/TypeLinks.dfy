/** What the type graph modules share: bound links between types, and `follow`. */
module TypeLinks {

  type Id = nat

  /** `follow`: walk Bound links to their end. */
  function Follow(links: map<Id, Id>, x: Id): Id
    decreases links.Keys
  {
    if x in links then Follow(links - {x}, links[x]) else x
  }

  /** A chain of links, one after the other, up to a type that is not bound. */
  ghost predicate Chain(links: map<Id, Id>, chain: seq<Id>) {
    && chain != [] && chain[|chain| - 1] !in links
    && forall i :: 0 <= i < |chain| - 1 ==> chain[i] in links && links[chain[i]] == chain[i + 1]
  }

  lemma {:induction false} NoWayBack(links: map<Id, Id>, chain: seq<Id>, j: nat, k: nat)
    requires Chain(links, chain) && j + k < |chain| && chain[0] == chain[j]
    ensures chain[k] == chain[j + k]
  {
    if k > 0 { NoWayBack(links, chain, j, k - 1); }
  }

  /** What is followed is the end of the chain of links. */
  lemma {:induction false} FollowIsEnd(links: map<Id, Id>, chain: seq<Id>)
    requires Chain(links, chain)
    ensures Follow(links, chain[0]) == chain[|chain| - 1]
    decreases |chain|
  {
    if |chain| > 1 {
      var x, rest := chain[0], chain[1..];
      forall i | 0 <= i < |rest| ensures rest[i] != x {
        if rest[i] == x { NoWayBack(links, chain, i + 1, |chain| - 2 - i); }
      }
      FollowIsEnd(links - {x}, rest);
    }
  }

  /** Every type has such a chain, unless its links go round and round. */
  lemma {:induction false} FollowsChain(links: map<Id, Id>, x: Id) returns (chain: seq<Id>)
    requires Follow(links, x) !in links
    ensures Chain(links, chain) && chain[0] == x
    decreases links.Keys
  {
    if x in links {
      var rest := FollowsChain(links - {x}, links[x]);
      FollowIsEnd(links - {x}, rest);
      chain := [x] + rest;
    } else {
      chain := [x];
    }
  }
}
