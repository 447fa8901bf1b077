/**
 * DependencyManipulator.loadRemoteOverrides, from the point where the BOM and REST maps are
 * available: the BOM maps are merged so that the first listed BOM wins, then the BOM and REST
 * maps are combined according to the configured precedence. removeDuplicateArtifacts drops,
 * from the losing map, every entry whose group:artifact the winning map also has.
 */
module OverrideMerge {
  import opened Refs
  import opened LinkedMaps

  /** An override map: artifact ref to version, in insertion order. */
  type Overrides = LinkedMap<ArtifactRef, string>

  /** DependencyState.DependencyPrecedence. */
  datatype Precedence = BOM | REST | RESTBOM | BOMREST

  ghost predicate AllValid(boms: seq<Overrides>) {
    forall i | 0 <= i < |boms| :: boms[i].Valid()
  }

  /** `narrow` keeps only entries of `wide`, with their values, and stays well formed. */
  ghost predicate Narrower(narrow: Overrides, wide: Overrides) {
    && (wide.Valid() ==> narrow.Valid())
    && forall k | k in narrow.entries :: k in wide.entries && narrow.entries[k] == wide.entries[k]
  }

  /** The BOM maps put, last to first, into one map, so an earlier BOM overwrites a later one. */
  function BomOverrides(boms: seq<Overrides>): (r: Overrides)
    requires AllValid(boms)
    ensures r.Valid()
    // the first BOM listed overrides every later one
    ensures boms != [] ==> forall k | k in boms[0].entries :: k in r.entries && r.entries[k] == boms[0].entries[k]
    // every key comes from some BOM
    ensures forall k | k in r.entries :: exists i | 0 <= i < |boms| :: k in boms[i].entries
  {
    if boms == [] then Empty() else BomOverrides(boms[1..]).PutAll(boms[0])
  }

  /** The group:artifact pairs of the keys of `m`. */
  function GAs(m: Overrides): set<ProjectRef> {
    set k | k in m.keys :: k.AsProjectRef()
  }

  /** The keys of `merged` whose group:artifact also occurs among the keys of `target`. */
  function Clashing(keys: seq<ArtifactRef>, target: Overrides): set<ArtifactRef> {
    set k | k in keys && k.AsProjectRef() in GAs(target)
  }

  /** `merged` after removeDuplicateArtifacts(merged, target). */
  function WithoutClashes(merged: Overrides, target: Overrides): Overrides {
    merged.RemoveKeys(Clashing(merged.keys, target))
  }

  /** What removeDuplicateArtifacts leaves: a key goes iff some key of `target` has its group:artifact. */
  lemma ClashesDropped(merged: Overrides, target: Overrides)
    requires merged.Valid()
    ensures var r := WithoutClashes(merged, target);
      && r.Valid()
      && (forall k :: k in r.entries <==> k in merged.entries && k.AsProjectRef() !in GAs(target))
      && (forall k | k in r.entries :: r.entries[k] == merged.entries[k])
  {
  }

  /** The map loadRemoteOverrides returns. */
  function MergeOverrides(boms: seq<Overrides>, rest: Overrides, precedence: Precedence): (r: Overrides)
    requires AllValid(boms) && rest.Valid()
    ensures r.Valid()
  {
    var bom := BomOverrides(boms);
    match precedence
    case BOM => bom
    case REST => rest
    case RESTBOM => WithoutClashes(bom, rest).PutAll(rest)
    case BOMREST => WithoutClashes(rest, bom).PutAll(bom)
  }

  /**
   * removeDuplicateArtifacts: walks the keys of `merged` and removes each one whose
   * group:artifact equals that of some key of `target`.
   */
  method RemoveDuplicateArtifacts(merged: Overrides, target: Overrides) returns (r: Overrides)
    ensures r == WithoutClashes(merged, target)
  {
    r := merged;
    PrunedNone(merged, target);
    var i := 0;
    while i < |merged.keys|
      invariant 0 <= i <= |merged.keys|
      invariant r == Pruned(merged, target, i)
    {
      var key := merged.keys[i];
      var clash := ClashesWith(key.AsProjectRef(), target);
      RemovalStep(merged, target, i);
      if clash {
        r := r.Remove(key);
      }
      i := i + 1;
    }
    PrunedAll(merged, target);
  }

  /** The inner loop of removeDuplicateArtifacts: whether some key of `target` has group:artifact `pRef`. */
  method ClashesWith(pRef: ProjectRef, target: Overrides) returns (clash: bool)
    ensures clash <==> pRef in GAs(target)
  {
    clash := false;
    var j := 0;
    while j < |target.keys|
      invariant 0 <= j <= |target.keys|
      invariant !clash
      invariant forall t | t in target.keys[..j] :: t.AsProjectRef() != pRef
    {
      if pRef == target.keys[j].AsProjectRef() {
        clash := true;
        break;
      }
      j := j + 1;
    }
    assert clash || target.keys[..j] == target.keys;
  }

  lemma ClashingPrefix(keys: seq<ArtifactRef>, i: nat, target: Overrides)
    requires i < |keys|
    ensures Clashing(keys[..i + 1], target)
      == Clashing(keys[..i], target) + (if keys[i].AsProjectRef() in GAs(target) then {keys[i]} else {})
  {
    assert keys[..i + 1] == keys[..i] + [keys[i]];
  }

  /** `merged` once removeDuplicateArtifacts has walked its first `i` keys. */
  function Pruned(merged: Overrides, target: Overrides, i: nat): Overrides
    requires i <= |merged.keys|
  {
    merged.RemoveKeys(Clashing(merged.keys[..i], target))
  }

  lemma PrunedNone(merged: Overrides, target: Overrides)
    ensures Pruned(merged, target, 0) == merged
  {
    WithoutAbsent(merged.keys, {});
    assert Clashing(merged.keys[..0], target) == {};
  }

  lemma PrunedAll(merged: Overrides, target: Overrides)
    ensures Pruned(merged, target, |merged.keys|) == WithoutClashes(merged, target)
  {
    assert merged.keys[..|merged.keys|] == merged.keys;
  }

  /** One turn of removeDuplicateArtifacts' loop: the `i`-th key goes exactly when it clashes. */
  lemma RemovalStep(merged: Overrides, target: Overrides, i: nat)
    requires i < |merged.keys|
    ensures Pruned(merged, target, i + 1)
      == if merged.keys[i].AsProjectRef() in GAs(target) then Pruned(merged, target, i).Remove(merged.keys[i]) else Pruned(merged, target, i)
  {
    var key := merged.keys[i];
    var before := Clashing(merged.keys[..i], target);
    ClashingPrefix(merged.keys, i, target);
    if key.AsProjectRef() in GAs(target) {
      RemoveKeysTwice(merged, before, {key});
      assert Clashing(merged.keys[..i + 1], target) == before + {key};
    } else {
      assert Clashing(merged.keys[..i + 1], target) == before;
    }
  }

  lemma RemoveKeysTwice<K, V>(m: LinkedMap<K, V>, a: set<K>, b: set<K>)
    ensures m.RemoveKeys(a).RemoveKeys(b) == m.RemoveKeys(a + b)
  {
    WithoutWithout(m.keys, a, b);
  }

  /**
   * loadRemoteOverrides after the remote fetches: `boms` are the maps of the BOMs in the
   * order they are listed, `rest` the map the REST scanner stored.
   */
  method LoadRemoteOverrides(boms: seq<Overrides>, rest: Overrides, precedence: Precedence) returns (merged: Overrides)
    requires AllValid(boms) && rest.Valid()
    ensures merged == MergeOverrides(boms, rest, precedence)
  {
    var bomOverrides: Overrides := Empty();
    var i := |boms|;
    while i > 0
      invariant 0 <= i <= |boms|
      invariant bomOverrides == BomOverrides(boms[i..])
    {
      i := i - 1;
      assert boms[i..][1..] == boms[i + 1..];
      bomOverrides := bomOverrides.PutAll(boms[i]);
    }
    merged := Empty();
    if precedence == BOM {
      merged := bomOverrides;
    }
    if precedence == REST {
      merged := rest;
    } else if precedence == RESTBOM {
      merged := bomOverrides;
      merged := RemoveDuplicateArtifacts(merged, rest);
      merged := merged.PutAll(rest);
    } else if precedence == BOMREST {
      merged := rest;
      merged := RemoveDuplicateArtifacts(merged, bomOverrides);
      merged := merged.PutAll(bomOverrides);
    }
  }

  /**
   * For every artifact ref, the merged BOM map holds the version of the first BOM in the list
   * that defines it, and nothing for refs no BOM defines.
   */
  lemma {:induction false} FirstListedBomWins(boms: seq<Overrides>, k: ArtifactRef)
    requires AllValid(boms)
    ensures k in BomOverrides(boms).entries <==> exists i | 0 <= i < |boms| :: k in boms[i].entries
    ensures forall i | 0 <= i < |boms| && k in boms[i].entries && (forall j | 0 <= j < i :: k !in boms[j].entries) ::
      BomOverrides(boms).entries[k] == boms[i].entries[k]
  {
    BomKeys(boms, k);
    forall i | 0 <= i < |boms| && k in boms[i].entries && (forall j | 0 <= j < i :: k !in boms[j].entries)
      ensures BomOverrides(boms).entries[k] == boms[i].entries[k]
    {
      FirstDefiningBom(boms, k, i);
    }
  }

  lemma {:induction false} BomKeys(boms: seq<Overrides>, k: ArtifactRef)
    requires AllValid(boms)
    ensures k in BomOverrides(boms).entries <==> exists i | 0 <= i < |boms| :: k in boms[i].entries
  {
    if boms != [] {
      BomKeys(boms[1..], k);
      if k !in boms[0].entries && exists i | 0 <= i < |boms| :: k in boms[i].entries {
        var i :| 0 <= i < |boms| && k in boms[i].entries;
        assert boms[1..][i - 1] == boms[i];
      }
    }
  }

  lemma {:induction false} FirstDefiningBom(boms: seq<Overrides>, k: ArtifactRef, i: nat)
    requires AllValid(boms) && i < |boms| && k in boms[i].entries
    requires forall j | 0 <= j < i :: k !in boms[j].entries
    ensures k in BomOverrides(boms).entries && BomOverrides(boms).entries[k] == boms[i].entries[k]
  {
    if i > 0 {
      assert boms[1..][i - 1] == boms[i];
      assert forall j | 0 <= j < i - 1 :: boms[1..][j] == boms[j + 1];
      FirstDefiningBom(boms[1..], k, i - 1);
    }
  }

  /**
   * The map `low` pruned of the group:artifacts of `high`, then overwritten with `high`:
   * it holds every entry of `high`, and an entry of `low` exactly when `high` has no key
   * with the same group:artifact.
   */
  lemma HigherPrecedenceWins(low: Overrides, high: Overrides)
    requires low.Valid() && high.Valid()
    ensures var r := WithoutClashes(low, high).PutAll(high);
      && (forall k :: k in r.entries <==> k in high.entries || (k in low.entries && k.AsProjectRef() !in GAs(high)))
      && (forall k | k in high.entries :: r.entries[k] == high.entries[k])
      && (forall k | k in r.entries && k !in high.entries :: r.entries[k] == low.entries[k])
  {
    var r := WithoutClashes(low, high).PutAll(high);
    forall k | k in high.entries
      ensures k.AsProjectRef() in GAs(high)
    {
      assert k in high.keys;
    }
    forall k | k in low.entries && k.AsProjectRef() in GAs(high) && k !in high.entries
      ensures k !in r.entries
    {
      assert k in low.keys;
      assert k in Clashing(low.keys, high);
    }
  }

  /** Under RESTBOM the REST map wins: every REST entry survives, BOM entries survive only for new group:artifacts. */
  lemma RestBomPrefersRest(boms: seq<Overrides>, rest: Overrides)
    requires AllValid(boms) && rest.Valid()
    ensures var r := MergeOverrides(boms, rest, RESTBOM);
      var bom := BomOverrides(boms);
      && (forall k :: k in r.entries <==> k in rest.entries || (k in bom.entries && k.AsProjectRef() !in GAs(rest)))
      && (forall k | k in rest.entries :: r.entries[k] == rest.entries[k])
      && (forall k | k in r.entries && k !in rest.entries :: r.entries[k] == bom.entries[k])
  {
    HigherPrecedenceWins(BomOverrides(boms), rest);
  }

  /** Under BOMREST the BOM map wins: every BOM entry survives, REST entries survive only for new group:artifacts. */
  lemma BomRestPrefersBom(boms: seq<Overrides>, rest: Overrides)
    requires AllValid(boms) && rest.Valid()
    ensures var r := MergeOverrides(boms, rest, BOMREST);
      var bom := BomOverrides(boms);
      && (forall k :: k in r.entries <==> k in bom.entries || (k in rest.entries && k.AsProjectRef() !in GAs(bom)))
      && (forall k | k in bom.entries :: r.entries[k] == bom.entries[k])
      && (forall k | k in r.entries && k !in bom.entries :: r.entries[k] == rest.entries[k])
  {
    HigherPrecedenceWins(rest, BomOverrides(boms));
  }

  /**
   * When the BOM and REST maps share no group:artifact, the two mixed precedences cover the
   * same entries: the union of both maps.
   */
  lemma DisjointSourcesCommute(boms: seq<Overrides>, rest: Overrides)
    requires AllValid(boms) && rest.Valid()
    requires GAs(BomOverrides(boms)) !! GAs(rest)
    ensures MergeOverrides(boms, rest, RESTBOM).entries == BomOverrides(boms).entries + rest.entries
    ensures MergeOverrides(boms, rest, BOMREST).entries == rest.entries + BomOverrides(boms).entries
    ensures MergeOverrides(boms, rest, RESTBOM).entries == MergeOverrides(boms, rest, BOMREST).entries
  {
    var bom := BomOverrides(boms);
    NoClashes(bom, rest);
    NoClashes(rest, bom);
    DisjointKeys(bom, rest);
    UnionCommutes(bom.entries, rest.entries);
  }

  lemma NoClashes(a: Overrides, b: Overrides)
    requires GAs(a) !! GAs(b)
    ensures WithoutClashes(a, b).entries == a.entries
  {
    assert Clashing(a.keys, b) == {};
  }

  lemma DisjointKeys(a: Overrides, b: Overrides)
    requires a.Valid() && b.Valid() && GAs(a) !! GAs(b)
    ensures a.entries.Keys !! b.entries.Keys
  {
    forall k | k in a.keys && k in b.keys
      ensures false
    {
      assert k.AsProjectRef() in GAs(a);
    }
  }

  lemma UnionCommutes<K, V>(a: map<K, V>, b: map<K, V>)
    requires a.Keys !! b.Keys
    ensures a + b == b + a
  {
  }
}
