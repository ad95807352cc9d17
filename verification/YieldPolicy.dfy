/** Enforcement of yield policies: mounts that a source shares with a target pass from active in the
    source to active in the target, by two separate updates that can each fail. */
module YieldPolicies {

  const ACTIVE := "active"
  const INACTIVE := "inactive"

  /** A mount reference as stored: its mode and status, and whatever else the entry holds (the copy of
      the child, its generation), which the controller's own type does not have. */
  datatype Ref = Ref(mode: string, status: string, extra: string)

  /** By kind, then by namespaced name. */
  type Mounts = map<string, map<string, Ref>>

  predicate Has(m: Mounts, k: string, n: string) {
    k in m && n in m[k]
  }

  predicate Active(m: Mounts, k: string, n: string) {
    Has(m, k, n) && m[k][n].status == ACTIVE
  }

  /** The mounts that a policy hands over. */
  predicate Passes(src: Mounts, target: Mounts, k: string, n: string) {
    Active(src, k, n) && Has(target, k, n)
  }

  /** Reading into the controller's type drops everything but mode and status. */
  function GetMounts(m: Mounts): Mounts {
    map k | k in m :: map n | n in m[k] :: Ref(m[k][n].mode, m[k][n].status, "")
  }

  /** Exactly the mounts in `Passes` are flipped; all others, and all modes, stay. */
  ghost predicate Flipped(before: Mounts, after: Mounts, src: Mounts, target: Mounts, status: string) {
    && after.Keys == before.Keys
    && forall k :: k in before ==>
         && after[k].Keys == before[k].Keys
         && forall n :: n in before[k] ==>
              after[k][n] == if Passes(src, target, k, n) then before[k][n].(status := status) else before[k][n]
  }

  type Refs = map<string, Ref>

  function FlippedRefs(refs: Refs, src: Refs, target: Refs, status: string): Refs {
    map n | n in refs :: if n in src && n in target && src[n].status == ACTIVE then refs[n].(status := status) else refs[n]
  }

  ghost predicate AnyPasses(src: Refs, target: Refs) {
    exists n :: n in src && n in target && src[n].status == ACTIVE
  }

  /** The inner loop, over the mounts of one kind. */
  method TransferKind(src: Refs, target: Refs) returns (src': Refs, target': Refs, updated: bool)
    ensures src' == FlippedRefs(src, src, target, INACTIVE) && target' == FlippedRefs(target, src, target, ACTIVE)
    ensures updated <==> AnyPasses(src, target)
  {
    src', target', updated := src, target, false;
    var names := src.Keys;
    while names != {}
      invariant names <= src.Keys && src'.Keys == src.Keys && target'.Keys == target.Keys
      invariant forall n :: n in src ==>
                  src'[n] == if n !in names && n in target && src[n].status == ACTIVE then src[n].(status := INACTIVE) else src[n]
      invariant forall n :: n in target ==>
                  target'[n] == if n in src && n !in names && src[n].status == ACTIVE then target[n].(status := ACTIVE) else target[n]
      invariant updated <==> exists n :: n in src && n !in names && n in target && src[n].status == ACTIVE
    {
      var n :| n in names;
      if n in target' && src'[n].status == ACTIVE {
        src' := src'[n := src'[n].(status := INACTIVE)];
        target' := target'[n := target'[n].(status := ACTIVE)];
        updated := true;
      }
      names := names - {n};
    }
  }

  /** The nested loops of `doEnforce` over the two copies. */
  method Transfer(src: Mounts, target: Mounts) returns (src': Mounts, target': Mounts, updated: bool)
    ensures Flipped(src, src', src, target, INACTIVE)
    ensures Flipped(target, target', src, target, ACTIVE)
    ensures updated <==> exists k, n :: Passes(src, target, k, n)
  {
    hide FlippedRefs, AnyPasses;
    src', target', updated := src, target, false;
    var kinds := src.Keys;
    while kinds != {}
      invariant kinds <= src.Keys && src'.Keys == src.Keys && target'.Keys == target.Keys
      invariant forall k :: k in src ==>
                  src'[k] == if k in kinds || k !in target then src[k] else FlippedRefs(src[k], src[k], target[k], INACTIVE)
      invariant forall k :: k in target ==>
                  target'[k] == if k in kinds || k !in src then target[k] else FlippedRefs(target[k], src[k], target[k], ACTIVE)
      invariant updated <==> exists k :: k in src && k !in kinds && k in target && AnyPasses(src[k], target[k])
    {
      var k :| k in kinds;
      if k in target {
        var s, t, more := TransferKind(src'[k], target'[k]);
        src', target' := src'[k := s], target'[k := t];
        updated := updated || more;
      }
      kinds := kinds - {k};
    }
    KindsFlipped(src, src', src, target, INACTIVE);
    KindsFlipped(target, target', src, target, ACTIVE);
    SomePasses(src, target);
  }

  lemma KindsFlipped(before: Mounts, after: Mounts, src: Mounts, target: Mounts, status: string)
    requires after.Keys == before.Keys && (before == src || before == target)
    requires forall k :: k in before ==>
               after[k] == if k in src && k in target then FlippedRefs(before[k], src[k], target[k], status) else before[k]
    ensures Flipped(before, after, src, target, status)
  {
  }

  lemma SomePasses(src: Mounts, target: Mounts)
    ensures (exists k, n :: Passes(src, target, k, n)) <==>
            (exists k :: k in src && k in target && AnyPasses(src[k], target[k]))
  {
    if k, n :| Passes(src, target, k, n) {
      assert AnyPasses(src[k], target[k]);
    }
    if k :| k in src && k in target && AnyPasses(src[k], target[k]) {
      var n :| n in src[k] && n in target[k] && src[k][n].status == ACTIVE;
      assert Passes(src, target, k, n);
    }
  }

  /** A second pass over what a first pass produced finds nothing to hand over. */
  lemma SecondPassIsIdle(src: Mounts, target: Mounts, src': Mounts, target': Mounts)
    requires Flipped(src, src', src, target, INACTIVE) && Flipped(target, target', src, target, ACTIVE)
    ensures forall k, n :: !Passes(src', target', k, n)
    ensures forall s, t :: Flipped(src', s, src', target', INACTIVE) && Flipped(target', t, src', target', ACTIVE) ==>
              s == src' && t == target'
  {
    forall k, n ensures !Passes(src', target', k, n) {
    }
    forall s, t | Flipped(src', s, src', target', INACTIVE) && Flipped(target', t, src', target', ACTIVE)
      ensures s == src' && t == target'
    {
      SameMounts(src', s);
      SameMounts(target', t);
    }
  }

  lemma SameMounts(a: Mounts, b: Mounts)
    requires a.Keys == b.Keys
    requires forall k :: k in a ==> a[k].Keys == b[k].Keys && forall n :: n in a[k] ==> a[k][n] == b[k][n]
    ensures a == b
  {
    forall k | k in a ensures a[k] == b[k] {
    }
  }
}
