/** JSON values and JSON merge patches (section 2 of RFC 7396), the form in which the drivers edit the
    spec of a model. */
module MergePatches {
  import opened Basics

  datatype Json =
    | Null
    | Bool(b: bool)
    | Num(n: int)
    | Str(s: string)
    | Arr(elems: seq<Json>)
    | Obj(fields: map<string, Json>)

  function FieldsOf(j: Json): map<string, Json> {
    if j.Obj? then j.fields else map[]
  }

  function Apply(target: Json, patch: Json): Json
    decreases patch
  {
    if !patch.Obj? then patch
    else
      var prior := FieldsOf(target);
      Obj(map k | k in prior.Keys + patch.fields.Keys && !(k in patch.fields && patch.fields[k].Null?) ::
        if k in patch.fields then Apply(if k in prior then prior[k] else Null, patch.fields[k]) else prior[k])
  }

  /** Patching twice is patching once, so a retried patch does no harm. */
  lemma {:induction false} ApplyTwice(target: Json, patch: Json)
    ensures Apply(Apply(target, patch), patch) == Apply(target, patch)
    decreases patch
  {
    if patch.Obj? {
      var once := Apply(target, patch);
      var twice := Apply(once, patch);
      forall k | k in patch.fields && !patch.fields[k].Null?
        ensures k in once.fields && k in twice.fields && twice.fields[k] == once.fields[k]
      {
        var prior := FieldsOf(target);
        ApplyTwice(if k in prior then prior[k] else Null, patch.fields[k]);
      }
      assert twice.fields.Keys == once.fields.Keys;
      assert twice.fields == once.fields;
    }
  }

  /** The fields of a patched object: the old ones, and those that the patch sets, without those that
      it nulls. */
  lemma PatchedKeys(target: Json, patch: Json)
    requires patch.Obj?
    ensures Apply(target, patch).Obj?
    ensures Apply(target, patch).fields.Keys ==
            FieldsOf(target).Keys + patch.fields.Keys - set k | k in patch.fields && patch.fields[k].Null?
  {
  }

  // ---------------------------------------------------------------- what a patch does, path by path

  function Get(j: Json, path: seq<string>): Option<Json>
    decreases |path|
  {
    if path == [] then Some(j)
    else if j.Obj? && path[0] in j.fields then Get(j.fields[path[0]], path[1..])
    else None
  }

  /** The patch does not go that way: it is an object there, or above, that lacks the next key. */
  predicate Untouched(patch: Json, path: seq<string>)
    decreases |path|
  {
    path != [] && patch.Obj? && (path[0] in patch.fields ==> Untouched(patch.fields[path[0]], path[1..]))
  }

  /** What the patch says, neither an object nor null, is there afterwards. */
  lemma {:induction false} SetsLeaves(target: Json, patch: Json, path: seq<string>, v: Json)
    requires Get(patch, path) == Some(v) && !v.Obj? && !v.Null?
    ensures Get(Apply(target, patch), path) == Some(v)
    decreases |path|
  {
    if path != [] {
      var k, prior := path[0], FieldsOf(target);
      SetsLeaves(if k in prior then prior[k] else Null, patch.fields[k], path[1..], v);
      assert !patch.fields[k].Null?;
    }
  }

  /** What the patch nulls is gone. */
  lemma {:induction false} RemovesNulls(target: Json, patch: Json, path: seq<string>)
    requires path != [] && Get(patch, path) == Some(Null)
    ensures Get(Apply(target, patch), path) == None
    decreases |path|
  {
    var k, prior := path[0], FieldsOf(target);
    if |path| > 1 {
      RemovesNulls(if k in prior then prior[k] else Null, patch.fields[k], path[1..]);
    }
  }

  /** Everything else stays. */
  lemma {:induction false} KeepsTheRest(target: Json, patch: Json, path: seq<string>)
    requires Untouched(patch, path)
    ensures Get(Apply(target, patch), path) == Get(target, path)
    decreases |path|
  {
    var k, prior := path[0], FieldsOf(target);
    if k in patch.fields {
      KeepsTheRest(if k in prior then prior[k] else Null, patch.fields[k], path[1..]);
    }
  }
}
