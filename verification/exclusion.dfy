/**
  The exclusion filter: identifiers of the game, its loaders and the
  Fabric API modules are dropped from the registry and from every mod's
  dependency map.
 */
module Exclusion {
  import opened Text
  import opened PyDict

  const IgnoredMods: set<string> := {
    "minecraft", "forge", "neoforge", "fabricloader", "fabric-loader",
    "fabric", "fabric-api", "fabric_api", "fabric-resource-loader-v0",
    "fabric-screen-api-v1", "fabric-networking-api-v1",
    "fabric-lifecycle-events-v1", "fabric-renderer-api-v1",
    "fabric-registry-sync-v0", "fabric-api-base",
    "fabric-events-interaction-v0", "fabric-permissions-api-v0",
    "fabric-command-api-v2", "fabric-kotlin", "java"
  }

  /** `should_ignore`: an empty id is falsy, so it is never ignored. */
  predicate ShouldIgnore(modId: string) {
    modId != "" && Lower(modId) in IgnoredMods
  }

  /**
    The filter folds case: an id is ignored exactly when its lower-case
    form is.
   */
  lemma IgnoreIsCaseInsensitive(m: string)
    ensures ShouldIgnore(m) <==> ShouldIgnore(Lower(m))
  {
    LowerIdempotent(m);
  }

  /** Mixed case is folded before the lookup; the empty id is never ignored. */
  lemma IgnoreExamples()
    ensures ShouldIgnore("Fabric-API")
    ensures ShouldIgnore("MINECRAFT")
    ensures !ShouldIgnore("")
    ensures !ShouldIgnore("sodium")
  {
    assert Lower("Fabric-API") == "fabric-api";
    assert Lower("MINECRAFT") == "minecraft";
    assert Lower("sodium") == "sodium";
  }

  /** Keeps the keys of `ks` that are not ignored, in order. */
  function KeptKeys(ks: seq<string>): (r: seq<string>)
    ensures forall k :: k in r <==> k in ks && !ShouldIgnore(k)
    ensures Distinct(ks) ==> Distinct(r)
  {
    if ks == [] then []
    else if ShouldIgnore(ks[0]) then KeptKeys(ks[1..])
    else
      assert forall k :: k in ks[1..] ==> k in ks;
      [ks[0]] + KeptKeys(ks[1..])
  }

  /** `a` occurs in `ks` at an earlier position than `b`. */
  predicate Precedes(ks: seq<string>, a: string, b: string) {
    exists p, q :: 0 <= p < q < |ks| && ks[p] == a && ks[q] == b
  }

  /** The kept keys keep their relative order. */
  lemma {:induction false} KeptKeysOrder(ks: seq<string>)
    ensures forall i, j :: 0 <= i < j < |KeptKeys(ks)| ==> Precedes(ks, KeptKeys(ks)[i], KeptKeys(ks)[j])
  {
    if ks != [] {
      KeptKeysOrder(ks[1..]);
      var r, t := KeptKeys(ks), KeptKeys(ks[1..]);
      forall i, j | 0 <= i < j < |r| ensures Precedes(ks, r[i], r[j]) {
        if ShouldIgnore(ks[0]) {
          var p, q :| 0 <= p < q < |ks[1..]| && ks[1..][p] == t[i] && ks[1..][q] == t[j];
          assert ks[p + 1] == r[i] && ks[q + 1] == r[j];
        } else if i == 0 {
          assert r[j] == t[j - 1] && t[j - 1] in t;
          var q :| 0 <= q < |ks[1..]| && ks[1..][q] == r[j];
          assert ks[0] == r[0] && ks[q + 1] == r[j];
        } else {
          var p, q :| 0 <= p < q < |ks[1..]| && ks[1..][p] == t[i - 1] && ks[1..][q] == t[j - 1];
          assert ks[p + 1] == r[i] && ks[q + 1] == r[j];
        }
      }
    }
  }

  /**
    The dependency filter of the scanner, a dict comprehension: the same
    entries in the same relative order, minus the ignored keys.
   */
  function WithoutIgnored<V>(d: Dict<V>): (r: Dict<V>)
    requires d.Valid()
    ensures r.Valid()
    ensures forall k :: k in r.vals <==> k in d.vals && !ShouldIgnore(k)
    ensures forall k :: k in r.vals ==> r.vals[k] == d.vals[k]
    ensures forall i, j :: 0 <= i < j < |r.keys| ==> Precedes(d.keys, r.keys[i], r.keys[j])
  {
    var kept := KeptKeys(d.keys);
    assert forall i :: 0 <= i < |kept| ==> kept[i] in kept;
    KeptKeysOrder(d.keys);
    Dict(kept, map k | k in d.vals && !ShouldIgnore(k) :: d.vals[k])
  }
}
