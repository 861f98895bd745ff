/**
  A model of `Alexa::Utils.safe_retrieve(container, *keys)`: a total lookup
  that walks a hash of hashes along a sequence of keys and answers the value
  at the end of the path, or nil (`None`) when the path cannot be followed.
 */
module Utils {
  import opened Wrappers

  /** Hash keys; the callers use Ruby symbols, modelled by their names. */
  type Key = string

  /** A value reachable from the container: a hash of further values, or anything else. */
  datatype Node = Hash(entries: map<Key, Node>) | Scalar(text: string)

  /**
    The lookup. Giving no keys at all answers nil, even for a hash: the
    container itself is never returned. Any other input goes to `Dig`.
   */
  function SafeRetrieve(n: Node, keys: seq<Key>): (r: Option<Node>)
    ensures keys == [] ==> r == None
    ensures n.Scalar? ==> r == None
    ensures r.Some? ==> && n.Hash? && keys[0] in n.entries && r.value < n
                        && (r.value == n.entries[keys[0]] || r.value < n.entries[keys[0]])
  {
    if keys == [] then None else Dig(n, keys)
  }

  /**
    One step of the walk for a non-empty remaining path: stop with nil on a
    non-hash or a missing key, answer the entry on the last key, and
    otherwise continue from the entry with the remaining keys.
    Whatever it answers is the entry under the first key or lies inside it.
   */
  function Dig(n: Node, keys: seq<Key>): (r: Option<Node>)
    requires keys != []
    ensures r.Some? ==> && n.Hash? && keys[0] in n.entries && r.value < n
                        && (r.value == n.entries[keys[0]] || r.value < n.entries[keys[0]])
    decreases |keys|
  {
    match n
    case Scalar(_) => None
    case Hash(m) =>
      if keys[0] !in m then None
      else if |keys| == 1 then Some(m[keys[0]])
      else Dig(m[keys[0]], keys[1..])
  }

  /** `to` is the entry stored under `k` in the hash `from`. */
  predicate Step(from: Node, k: Key, to: Node)
  {
    from.Hash? && k in from.entries && from.entries[k] == to
  }

  /**
    Reference definition of "the path `keys` can be followed from `n`":
    `chain` lists the node reached after each prefix of `keys`, starting at
    `n`, and every consecutive pair is one `Step`.
   */
  ghost predicate IsTrail(n: Node, keys: seq<Key>, chain: seq<Node>)
  {
    && |chain| == |keys| + 1
    && chain[0] == n
    && forall i :: 0 <= i < |keys| ==> Step(chain[i], keys[i], chain[i + 1])
  }

  /** A trail for `keys` from the entry under `k` extends to a trail for `[k] + keys`. */
  lemma TrailCons(n: Node, k: Key, keys: seq<Key>, chain: seq<Node>)
    requires chain != [] && Step(n, k, chain[0]) && IsTrail(chain[0], keys, chain)
    ensures IsTrail(n, [k] + keys, [n] + chain)
  {
  }

  /** Dropping the first step of a trail leaves a trail from the first entry. */
  lemma TrailTail(n: Node, keys: seq<Key>, chain: seq<Node>)
    requires IsTrail(n, keys, chain) && keys != []
    ensures Step(n, keys[0], chain[1])
    ensures IsTrail(chain[1], keys[1..], chain[1..])
  {
  }

  /**
    Whatever the lookup answers is the value at the end of the path: if it
    answers `v`, the whole path can be followed from `n` and ends at `v`.
    Equivalently, when the path cannot be followed the answer is nil.
   */
  lemma {:induction false} RetrieveFollowsPath(n: Node, keys: seq<Key>, v: Node)
    requires SafeRetrieve(n, keys) == Some(v)
    ensures keys != []
    ensures exists chain :: IsTrail(n, keys, chain) && chain[|keys|] == v
  {
    DigFollowsPath(n, keys, v);
  }

  /**
    Every failing case collapses to nil: when no trail follows the whole
    path from `n`, the lookup answers nil and never fails.
   */
  lemma NoPathIsNil(n: Node, keys: seq<Key>)
    requires forall chain :: !IsTrail(n, keys, chain)
    ensures SafeRetrieve(n, keys) == None
  {
    if SafeRetrieve(n, keys).Some? {
      RetrieveFollowsPath(n, keys, SafeRetrieve(n, keys).value);
    }
  }

  lemma {:induction false} DigFollowsPath(n: Node, keys: seq<Key>, v: Node)
    requires keys != [] && Dig(n, keys) == Some(v)
    ensures exists chain :: IsTrail(n, keys, chain) && chain[|keys|] == v
    decreases |keys|
  {
    var next := n.entries[keys[0]];
    if |keys| == 1 {
      assert IsTrail(n, keys, [n, v]);
    } else {
      DigFollowsPath(next, keys[1..], v);
      var chain :| IsTrail(next, keys[1..], chain) && chain[|keys| - 1] == v;
      TrailCons(n, keys[0], keys[1..], chain);
      assert [keys[0]] + keys[1..] == keys;
      assert IsTrail(n, keys, [n] + chain) && ([n] + chain)[|keys|] == v;
    }
  }

  /**
    Nested hit: when every key of a non-empty path is present along the way
    and the path ends on a scalar, the lookup answers exactly that scalar.
   */
  lemma {:induction false} RetrieveNestedValue(n: Node, keys: seq<Key>, chain: seq<Node>)
    requires keys != [] && IsTrail(n, keys, chain) && chain[|keys|].Scalar?
    ensures SafeRetrieve(n, keys) == Some(chain[|keys|])
  {
    DigNestedValue(n, keys, chain);
  }

  lemma {:induction false} DigNestedValue(n: Node, keys: seq<Key>, chain: seq<Node>)
    requires keys != [] && IsTrail(n, keys, chain) && chain[|keys|].Scalar?
    ensures Dig(n, keys) == Some(chain[|keys|])
    decreases |keys|
  {
    TrailTail(n, keys, chain);
    if |keys| > 1 {
      DigNestedValue(chain[1], keys[1..], chain[1..]);
    }
  }

  /**
    The walk is stuck at position `i` when the path up to `i` can be
    followed but the node reached there does not hold `keys[i]`: it is a
    hash without that key, or not a hash at all.
   */
  lemma {:induction false} DigStuck(n: Node, keys: seq<Key>, i: nat, chain: seq<Node>)
    requires i < |keys| && IsTrail(n, keys[..i], chain)
    requires !(chain[i].Hash? && keys[i] in chain[i].entries)
    ensures Dig(n, keys) == None
    decreases i
  {
    if i > 0 {
      TrailTail(n, keys[..i], chain);
      assert keys[..i][1..] == keys[1..][..i - 1];
      DigStuck(chain[1], keys[1..], i - 1, chain[1..]);
    }
  }

  /**
    Missing key: if the first key, or any later key after the earlier ones
    matched, is absent from the hash reached at that point, the answer is nil.
   */
  lemma {:induction false} MissingKeyIsNil(n: Node, keys: seq<Key>, i: nat, chain: seq<Node>)
    requires i < |keys| && IsTrail(n, keys[..i], chain)
    requires chain[i].Hash? && keys[i] !in chain[i].entries
    ensures SafeRetrieve(n, keys) == None
  {
    DigStuck(n, keys, i, chain);
  }

  /**
    Path longer than the tree: if the walk reaches a non-hash value with
    keys still left, the answer is nil rather than a failure.
   */
  lemma {:induction false} PathPastLeafIsNil(n: Node, keys: seq<Key>, i: nat, chain: seq<Node>)
    requires i < |keys| && IsTrail(n, keys[..i], chain)
    requires chain[i].Scalar?
    ensures SafeRetrieve(n, keys) == None
  {
    DigStuck(n, keys, i, chain);
  }

  /** The six recorded cases, on the container `{first: {second: {third: "Value!"}}}`. */
  lemma RecordedCases()
    ensures var h := Hash(map["first" := Hash(map["second" := Hash(map["third" := Scalar("Value!")])])]);
      && SafeRetrieve(h, ["first", "second", "third"]) == Some(Scalar("Value!"))
      && SafeRetrieve(h, ["non_exisiting"]) == None
      && SafeRetrieve(h, ["first", "non_exisiting"]) == None
      && SafeRetrieve(h, ["first", "second", "third", "fourth"]) == None
      && SafeRetrieve(Scalar("something different"), []) == None
      && SafeRetrieve(h, []) == None
  {
  }
}
