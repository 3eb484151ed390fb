/** Chain resolution as maptel_transform performs it (maptel.cc), stated on
    values: the walk along a redirection table, the number the walk settles
    on, and its characterisation by redirection chains. */
module Resolution {

  /** One redirection table: source number to destination number. */
  type Table = map<string, string>

  /** The key at which the loop of maptel_transform stops when it starts at
      key with the keys in visited already seen: it follows the table while
      the key is mapped and not yet seen, recording each key it leaves. */
  function Walk(t: Table, key: string, visited: set<string>): (last: string)
    ensures last == key || last in t.Values
    decreases |t.Keys - visited|
  {
    if key in t && key !in visited then
      assert t.Keys - (visited + {key}) == (t.Keys - visited) - {key};
      Walk(t, t[key], visited + {key})
    else
      key
  }

  /** The number maptel_transform writes for src: the end of the chain when
      the chain ends at an unmapped number, and src itself when the walk
      stopped at a key that is still mapped, that is, on a cycle. */
  function Resolve(t: Table, src: string): (r: string)
    ensures r == src || r !in t
  {
    var last := Walk(t, src, {});
    if last in t then src else last
  }

  /** p is a redirection chain: each element but the last is mapped, to the
      element that follows it. */
  ghost predicate IsChain(t: Table, p: seq<string>) {
    |p| >= 1 && forall i :: 0 <= i < |p| - 1 ==> p[i] in t && t[p[i]] == p[i + 1]
  }

  function Elements(p: seq<string>): (keys: set<string>)
    ensures forall i :: 0 <= i < |p| ==> p[i] in keys
    ensures forall x :: x in keys ==> x in p
  {
    set x | x in p
  }

  ghost predicate Distinct(p: seq<string>) {
    forall i, j :: 0 <= i < j < |p| ==> p[i] != p[j]
  }

  /** The walk ends where the chain does when the chain's keys before its
      last element are distinct and its last element is either unmapped or
      one of them. */
  lemma {:induction false} WalkFollowsChain(t: Table, p: seq<string>, k: nat)
    requires IsChain(t, p) && Distinct(p[..|p| - 1])
    requires p[|p| - 1] !in t || p[|p| - 1] in p[..|p| - 1]
    requires k < |p|
    ensures Walk(t, p[k], Elements(p[..k])) == p[|p| - 1]
    decreases |p| - k
  {
    var seen := Elements(p[..k]);
    if k == |p| - 1 {
      assert p[..k] == p[..|p| - 1];
    } else {
      assert p[k] in t;
      assert p[k] !in seen by {
        assert forall j :: 0 <= j < k ==> p[..|p| - 1][j] == p[j];
      }
      assert seen + {p[k]} == Elements(p[..k + 1]) by {
        assert p[..k + 1] == p[..k] + [p[k]];
      }
      WalkFollowsChain(t, p, k + 1);
    }
  }

  /** Following mappings from the source to an unmapped number without
      repeating a key resolves to that number. */
  lemma ResolvesToChainEnd(t: Table, p: seq<string>)
    requires IsChain(t, p) && Distinct(p)
    requires p[|p| - 1] !in t
    ensures Resolve(t, p[0]) == p[|p| - 1]
  {
    assert Elements(p[..0]) == {};
    WalkFollowsChain(t, p, 0);
  }

  /** A chain from the source that comes back to a key it has already left
      resolves to the source itself, whether or not the cycle contains the
      source. */
  lemma CycleResolvesToSource(t: Table, p: seq<string>)
    requires IsChain(t, p) && Distinct(p[..|p| - 1])
    requires p[|p| - 1] in p[..|p| - 1]
    ensures Resolve(t, p[0]) == p[0]
  {
    assert Elements(p[..0]) == {};
    WalkFollowsChain(t, p, 0);
    var j :| 0 <= j < |p| - 1 && p[..|p| - 1][j] == p[|p| - 1];
    assert p[j] in t;
  }

  /** The keys the walk passes through, ending with the key it stops at. */
  function Trail(t: Table, key: string, visited: set<string>): (p: seq<string>)
    ensures |p| >= 1 && p[0] == key
    decreases |t.Keys - visited|
  {
    if key in t && key !in visited then
      assert t.Keys - (visited + {key}) == (t.Keys - visited) - {key};
      [key] + Trail(t, t[key], visited + {key})
    else
      [key]
  }

  /** The trail is a chain of fresh keys that stops at an unmapped key or at
      one already seen, ends where the walk does, and has at most one element
      more than there are unseen mapped keys. */
  lemma {:induction false} TrailIsChain(t: Table, key: string, visited: set<string>)
    ensures var p := Trail(t, key, visited);
      && IsChain(t, p)
      && Distinct(p[..|p| - 1])
      && (forall i :: 0 <= i < |p| - 1 ==> p[i] !in visited)
      && (p[|p| - 1] !in t || p[|p| - 1] in visited || p[|p| - 1] in p[..|p| - 1])
      && p[|p| - 1] == Walk(t, key, visited)
      && |p| - 1 <= |t.Keys - visited|
    decreases |t.Keys - visited|
  {
    if key in t && key !in visited {
      var rest := Trail(t, t[key], visited + {key});
      assert t.Keys - (visited + {key}) == (t.Keys - visited) - {key};
      TrailIsChain(t, t[key], visited + {key});
      var p := Trail(t, key, visited);
      assert p == [key] + rest;
      assert p[..|p| - 1] == [key] + rest[..|rest| - 1];
      if rest[|rest| - 1] in visited + {key} && rest[|rest| - 1] !in visited {
        assert p[|p| - 1] == p[0];
      }
    }
  }

  /** Every source has a chain of one of the two kinds above, so the two
      lemmas together determine the result of every resolution; the walk
      makes at most |t| steps. */
  lemma ChainOfEverySource(t: Table, src: string)
    ensures var p := Trail(t, src, {});
      && p[0] == src
      && IsChain(t, p)
      && Distinct(p[..|p| - 1])
      && (p[|p| - 1] !in t || p[|p| - 1] in p[..|p| - 1])
      && |p| <= |t| + 1
  {
    TrailIsChain(t, src, {});
    assert t.Keys - {} == t.Keys;
  }

  /** A source that is not mapped resolves to itself. */
  lemma UnmappedResolvesToItself(t: Table, src: string)
    requires src !in t
    ensures Resolve(t, src) == src
  {
  }

  /** The result of a resolution resolves to itself: it is either unmapped
      or the source of a cycle. */
  lemma ResolveIsIdempotent(t: Table, src: string)
    ensures Resolve(t, src) == src || Resolve(t, src) !in t
    ensures Resolve(t, Resolve(t, src)) == Resolve(t, src)
  {
    var r := Resolve(t, src);
    if r != src {
      assert Walk(t, r, {}) == r;
    }
  }

  /** One hop: a source redirected to an unmapped number resolves to it. */
  lemma OneHop(t: Table, a: string, b: string)
    requires a in t && t[a] == b && b !in t
    ensures Resolve(t, a) == b
  {
    ResolvesToChainEnd(t, [a, b]);
  }

  /** Two hops: a to b and b to an unmapped c resolve a to c. */
  lemma TwoHops(t: Table, a: string, b: string, c: string)
    requires a in t && t[a] == b && b in t && t[b] == c && c !in t
    ensures Resolve(t, a) == c
  {
    ResolvesToChainEnd(t, [a, b, c]);
  }

  /** Two numbers redirected to each other each resolve to themselves; so
      does a number redirected to itself (a == b). */
  lemma TwoCycle(t: Table, a: string, b: string)
    requires a in t && b in t && t[a] == b && t[b] == a
    ensures Resolve(t, a) == a && Resolve(t, b) == b
  {
    if a == b {
      assert [a, a][..1] == [a];
      CycleResolvesToSource(t, [a, a]);
      return;
    }
    assert [a, b, a][..2] == [a, b];
    CycleResolvesToSource(t, [a, b, a]);
    assert [b, a, b][..2] == [b, a];
    CycleResolvesToSource(t, [b, a, b]);
  }
}
