/**
 * JSON-like values as the browser client holds them, and the three
 * operations the client performs on them: the recursive merge `mergeDeep`,
 * the dotted-path read `getValue` and the dotted-path write `setValue`
 * (public/js/app.js:133-163).
 */
module Json {
  import opened Wrappers
  import Text

  /** A JSON value. JavaScript numbers are kept as integers: the operations modelled only test them for zero. */
  datatype J =
    | JNull
    | JBool(b: bool)
    | JNum(n: int)
    | JStr(s: string)
    | JArr(items: seq<J>)
    | JObj(fields: map<string, J>)

  /** JavaScript falsiness of a defined JSON value (`undefined` is `None` wherever it can occur). */
  predicate Falsy(j: J) {
    j == JNull || j == JBool(false) || j == JNum(0) || j == JStr("")
  }

  /** `typeof j === 'object' && j !== null`: arrays and plain objects. */
  predicate IsObject(j: J) {
    j.JArr? || j.JObj?
  }

  const EmptyObject: J := JObj(map[])

  /** `v || {}` for a value that may be `undefined`. */
  function OrEmptyObject(v: Option<J>): (r: J)
    ensures v.Some? && !Falsy(v.value) ==> r == v.value
    ensures v.None? || Falsy(v.value) ==> r == EmptyObject
  {
    if v.None? || Falsy(v.value) then EmptyObject else v.value
  }

  function FieldOf(fields: map<string, J>, k: string): Option<J> {
    if k in fields then Some(fields[k]) else None
  }

  function Max(a: nat, b: nat): nat {
    if a < b then b else a
  }

  /**
   * `mergeDeep(target, source)`. A fresh value is built; the inputs are values
   * and cannot be changed. Merging an array into a plain object, or a plain
   * object into an array, keeps the target (see README, "Left out").
   */
  function Merge(t: J, s: J): (r: J)
    decreases s, 0
    ensures !IsObject(t) ==> r == s
    ensures IsObject(t) && !IsObject(s) ==> r == t
    ensures t.JObj? && s.JObj? ==> r.JObj? && r.fields.Keys == t.fields.Keys + s.fields.Keys
    ensures t.JObj? && s.JObj? ==>
      forall k :: k in t.fields && k !in s.fields ==> r.fields[k] == t.fields[k]
    ensures t.JObj? && s.JObj? ==>
      forall k :: k in s.fields && !s.fields[k].JObj? ==> r.fields[k] == s.fields[k]
    ensures t.JObj? && s.JObj? ==>
      forall k :: k in s.fields && s.fields[k].JObj? && (k in t.fields ==> !t.fields[k].JArr?) ==>
        r.fields[k].JObj? && s.fields[k].fields.Keys <= r.fields[k].fields.Keys
    ensures t.JArr? && s.JArr? ==> r.JArr? && |r.items| == Max(|t.items|, |s.items|)
    ensures t.JArr? && s.JArr? ==>
      forall i :: |s.items| <= i < |t.items| ==> r.items[i] == t.items[i]
  {
    if !IsObject(t) then s
    else if !IsObject(s) then t
    else if t.JObj? && s.JObj? then
      JObj(map k | k in t.fields.Keys + s.fields.Keys ::
        if k in s.fields then MergeEntry(FieldOf(t.fields, k), s.fields[k]) else t.fields[k])
    else if t.JArr? && s.JArr? then
      var n := Max(|t.items|, |s.items|);
      JArr(seq(n, i requires 0 <= i < n =>
        if i < |s.items| then MergeEntry(if i < |t.items| then Some(t.items[i]) else None, s.items[i])
        else t.items[i]))
    else t
  }

  /** The body of the `forEach` in `mergeDeep`: what one source entry makes of the target's entry. */
  function MergeEntry(tv: Option<J>, sv: J): (r: J)
    decreases sv, 1
    ensures !sv.JObj? ==> r == sv
    ensures sv.JObj? && (tv.Some? ==> !tv.value.JArr?) ==> r.JObj? && sv.fields.Keys <= r.fields.Keys
  {
    if sv.JArr? then sv
    else if sv.JObj? then Merge(OrEmptyObject(tv), sv)
    else sv
  }

  /** Merging a plain object into `{}` gives that object back (the recursive case when the target entry is falsy). */
  lemma {:induction false} MergeIntoEmpty(s: J)
    requires s.JObj?
    ensures Merge(EmptyObject, s) == s
    decreases s
  {
    var r := Merge(EmptyObject, s);
    forall k | k in s.fields
      ensures r.fields[k] == s.fields[k]
    {
      var v := s.fields[k];
      assert r.fields[k] == MergeEntry(None, v);
      if v.JObj? {
        MergeIntoEmpty(v);
      }
    }
    assert r.fields == s.fields;
  }

  /** Merging a value into itself changes nothing. */
  lemma {:induction false} MergeSelf(x: J)
    ensures Merge(x, x) == x
    decreases x, 0
  {
    match x
    case JObj(f) =>
      var r := Merge(x, x);
      forall k | k in f
        ensures r.fields[k] == f[k]
      {
        MergeEntrySelf(f[k]);
      }
      assert r.fields == f;
    case JArr(xs) =>
      var r := Merge(x, x);
      forall i | 0 <= i < |xs|
        ensures r.items[i] == xs[i]
      {
        MergeEntrySelf(xs[i]);
      }
      assert r.items == xs;
    case _ =>
  }

  lemma {:induction false} MergeEntrySelf(v: J)
    ensures MergeEntry(Some(v), v) == v
    decreases v, 1
  {
    if v.JObj? {
      MergeSelf(v);
    }
  }

  /**
   * Merging the same target in again changes nothing: `mergeDeep(t, mergeDeep(t, s))`
   * is `mergeDeep(t, s)`.
   */
  lemma {:induction false} MergeAbsorb(t: J, s: J)
    ensures Merge(t, Merge(t, s)) == Merge(t, s)
    decreases s, 0
  {
    var r := Merge(t, s);
    if !IsObject(t) {
    } else if !IsObject(s) {
      MergeSelf(t);
    } else if t.JObj? && s.JObj? {
      var rr := Merge(t, r);
      forall k | k in r.fields
        ensures rr.fields[k] == r.fields[k]
      {
        assert rr.fields[k] == MergeEntry(FieldOf(t.fields, k), r.fields[k]);
        if k in s.fields {
          assert r.fields[k] == MergeEntry(FieldOf(t.fields, k), s.fields[k]);
          MergeEntryAbsorb(FieldOf(t.fields, k), s.fields[k]);
        } else {
          MergeEntrySelf(t.fields[k]);
        }
      }
      assert rr.fields == r.fields;
    } else if t.JArr? && s.JArr? {
      var rr := Merge(t, r);
      forall i | 0 <= i < |r.items|
        ensures rr.items[i] == r.items[i]
      {
        var tv := if i < |t.items| then Some(t.items[i]) else None;
        assert rr.items[i] == MergeEntry(tv, r.items[i]);
        if i < |s.items| {
          assert r.items[i] == MergeEntry(tv, s.items[i]);
          MergeEntryAbsorb(tv, s.items[i]);
        } else {
          MergeEntrySelf(t.items[i]);
        }
      }
      assert rr.items == r.items;
    } else {
      MergeSelf(t);
    }
  }

  lemma {:induction false} MergeEntryAbsorb(tv: Option<J>, sv: J)
    ensures MergeEntry(tv, MergeEntry(tv, sv)) == MergeEntry(tv, sv)
    decreases sv, 1
  {
    if sv.JObj? {
      MergeAbsorb(OrEmptyObject(tv), sv);
    }
  }

  /** The value at a key path, following plain objects only. */
  function Lookup(j: J, p: seq<string>): Option<J>
    decreases |p|
  {
    if p == [] then Some(j)
    else if j.JObj? && p[0] in j.fields then Lookup(j.fields[p[0]], p[1..])
    else None
  }

  /**
   * No array among the containers a key path walks through: the value itself
   * and every value met before the last key.
   */
  predicate NoArrayOnPath(j: J, p: seq<string>)
    decreases |p|
  {
    !j.JArr? && (|p| > 1 && j.JObj? && p[0] in j.fields ==> NoArrayOnPath(j.fields[p[0]], p[1..]))
  }

  /**
   * The source keeps the shape of the target: wherever both hold a key and the
   * target holds a plain object there, the source holds a plain object too.
   */
  predicate Conforms(t: J, s: J)
    decreases s
  {
    t.JObj? && s.JObj? ==>
      forall k :: k in t.fields && k in s.fields && t.fields[k].JObj? ==>
        s.fields[k].JObj? && Conforms(t.fields[k], s.fields[k])
  }

  /** Every key path of the target survives a merge with a source that keeps its shape. */
  lemma {:induction false} MergeKeepsTargetPaths(t: J, s: J, p: seq<string>)
    requires Conforms(t, s)
    requires Lookup(t, p).Some?
    ensures Lookup(Merge(t, s), p).Some?
    decreases |p|
  {
    if p != [] && IsObject(s) && s.JObj? {
      var k := p[0];
      var r := Merge(t, s);
      assert t.JObj? && k in t.fields;
      if k in s.fields && t.fields[k].JObj? {
        MergeKeepsTargetPaths(t.fields[k], s.fields[k], p[1..]);
        assert r.fields[k] == MergeEntry(Some(t.fields[k]), s.fields[k]);
        assert OrEmptyObject(Some(t.fields[k])) == t.fields[k];
      } else if k in s.fields {
        assert p[1..] == [];
      }
    }
  }

  lemma NoArrayOnEmptyObject(p: seq<string>)
    ensures NoArrayOnPath(EmptyObject, p)
  {
  }

  /** A scalar or an array that the source holds at a key path ends up at that path. */
  lemma {:induction false} MergeSourceLeafWins(t: J, s: J, p: seq<string>, v: J)
    requires |p| >= 1 && s.JObj?
    requires Lookup(s, p) == Some(v) && !v.JObj?
    requires NoArrayOnPath(t, p)
    ensures Lookup(Merge(t, s), p) == Some(v)
    decreases |p|
  {
    var k := p[0];
    var r := Merge(t, s);
    if t.JObj? {
      if |p| > 1 {
        var sv := s.fields[k];
        var tv := OrEmptyObject(FieldOf(t.fields, k));
        assert NoArrayOnPath(tv, p[1..]) by {
          if tv == EmptyObject {
            NoArrayOnEmptyObject(p[1..]);
          }
        }
        assert Lookup(sv, p[1..]) == Some(v);
        assert sv.JObj?;
        assert r.fields[k] == MergeEntry(FieldOf(t.fields, k), sv);
        MergeSourceLeafWins(tv, sv, p[1..], v);
      }
    }
  }

  /** `acc[key]` for a truthy `acc`; `None` is `undefined`. */
  function Property(j: J, key: string): (r: Option<J>)
    ensures j.JObj? ==> r == FieldOf(j.fields, key)
    ensures (j.JArr? || j.JStr?) && key == "length" ==>
      r == Some(JNum(if j.JArr? then |j.items| else |j.s|))
    ensures j.JArr? && key != "length" ==>
      (r.Some? <==> ArrayIndex(key).Some? && ArrayIndex(key).value < |j.items|)
    ensures j.JArr? && key != "length" && r.Some? ==> r.value == j.items[ArrayIndex(key).value]
    ensures j.JStr? && key != "length" ==>
      (r.Some? <==> ArrayIndex(key).Some? && ArrayIndex(key).value < |j.s|)
    ensures j.JStr? && key != "length" && r.Some? ==> r.value == JStr([j.s[ArrayIndex(key).value]])
    ensures j.JNull? || j.JBool? || j.JNum? ==> r.None?
  {
    match j
    case JObj(f) => FieldOf(f, key)
    case JArr(xs) =>
      if key == "length" then Some(JNum(|xs|))
      else (match ArrayIndex(key)
        case Some(i) => if i < |xs| then Some(xs[i]) else None
        case None => None)
    case JStr(s) =>
      if key == "length" then Some(JNum(|s|))
      else (match ArrayIndex(key)
        case Some(i) => if i < |s| then Some(JStr([s[i]])) else None
        case None => None)
    case _ => None
  }

  /** A canonical array-index key ("0", "17", never "017"), as JavaScript recognises one. */
  function ArrayIndex(key: string): (r: Option<nat>)
    ensures r.Some? ==> r.value < 0xFFFF_FFFF
  {
    if |key| >= 1 && Text.AllDigits(key) && (|key| == 1 || key[0] != '0')
       && Text.DigitsValue(key) < 0xFFFF_FFFF
    then Some(Text.DigitsValue(key))
    else None
  }

  /** One step of the `reduce` in `getValue`: `acc ? acc[key] : ''`. */
  function ReadStep(acc: Option<J>, key: string): (r: Option<J>)
    ensures acc.None? || Falsy(acc.value) ==> r == Some(JStr(""))
    ensures acc.Some? && acc.value.JObj? ==> r == FieldOf(acc.value.fields, key)
  {
    if acc.None? || Falsy(acc.value) then Some(JStr("")) else Property(acc.value, key)
  }

  /** `keys.reduce(step, acc)`, folding from the first key. */
  function ReadKeys(acc: Option<J>, keys: seq<string>): (r: Option<J>)
    ensures keys == [] ==> r == acc
    ensures keys != [] ==> r == ReadStep(ReadKeys(acc, keys[..|keys| - 1]), keys[|keys| - 1])
    decreases |keys|
  {
    if keys == [] then acc
    else
      var rest := keys[1..];
      assert rest != [] ==> rest[..|rest| - 1] == keys[..|keys| - 1][1..];
      ReadKeys(ReadStep(acc, keys[0]), rest)
  }

  /** `getValue(path)` on the form state `root`; the trailing `?? ''` maps null and undefined to `''`. */
  function GetValue(root: J, path: string): (r: J)
    ensures r != JNull
  {
    var v := ReadKeys(Some(root), Text.Split(path, '.'));
    if v.None? || v.value == JNull then JStr("") else v.value
  }

  lemma {:induction false} ReadAfterUndefined(keys: seq<string>)
    requires |keys| >= 1
    ensures ReadKeys(None, keys) == Some(JStr(""))
    decreases |keys|
  {
    if |keys| > 1 {
      ReadFromEmptyString(keys[1..]);
    }
  }

  lemma {:induction false} ReadFromEmptyString(keys: seq<string>)
    ensures ReadKeys(Some(JStr("")), keys) == Some(JStr(""))
    decreases |keys|
  {
    if keys != [] {
      ReadFromEmptyString(keys[1..]);
    }
  }

  /** A path whose first key is missing reads as `''`. */
  lemma MissingKeyReadsEmpty(root: J, path: string)
    requires root.JObj? && Text.Split(path, '.')[0] !in root.fields
    ensures GetValue(root, path) == JStr("")
  {
    var keys := Text.Split(path, '.');
    assert ReadStep(Some(root), keys[0]) == None;
    assert ReadKeys(Some(root), keys) == ReadKeys(None, keys[1..]);
    if |keys| > 1 {
      ReadAfterUndefined(keys[1..]);
    }
  }

  datatype SetError = TypeError

  /**
   * `setValue(path, value)` on the form state, as a value: the object walked to
   * by `ref = ref[key]` is rebuilt along the path. A missing intermediate
   * becomes `{}`; `key in ref` on null or a primitive throws, and so does
   * writing a property of null; a property written on a primitive is dropped.
   */
  function SetPath(ref: J, keys: seq<string>, v: J): (r: Result<J, SetError>)
    requires |keys| >= 1
    requires NoArrayOnPath(ref, keys)
    decreases |keys|
    ensures ref.JNull? ==> r.Err?
    ensures r.Ok? && ref.JObj? ==>
      r.value.JObj? && r.value.fields.Keys == ref.fields.Keys + {keys[0]}
    ensures r.Ok? && ref.JObj? ==>
      forall k :: k in ref.fields && k != keys[0] ==> r.value.fields[k] == ref.fields[k]
  {
    if |keys| == 1 then
      if ref.JObj? then Ok(JObj(ref.fields[keys[0] := v]))
      else if ref.JNull? then Err(TypeError)
      else Ok(ref)
    else if !ref.JObj? then Err(TypeError)
    else
      var k := keys[0];
      var child := if k in ref.fields then ref.fields[k] else EmptyObject;
      match SetPath(child, keys[1..], v)
      case Ok(c) => Ok(JObj(ref.fields[k := c]))
      case Err(e) => Err(e)
  }

  /** Every container met along a path that exists is a plain object. */
  predicate ObjectsAlong(j: J, p: seq<string>)
    decreases |p|
  {
    j.JObj? && (|p| > 1 && p[0] in j.fields ==> ObjectsAlong(j.fields[p[0]], p[1..]))
  }

  lemma {:induction false} ObjectsAlongHasNoArray(j: J, p: seq<string>)
    requires ObjectsAlong(j, p)
    ensures NoArrayOnPath(j, p)
    decreases |p|
  {
    if |p| > 1 && p[0] in j.fields {
      ObjectsAlongHasNoArray(j.fields[p[0]], p[1..]);
    }
  }

  /** `v` sits at the path, below plain objects only. */
  predicate Reaches(j: J, p: seq<string>, v: J)
    decreases |p|
  {
    |p| >= 1 && j.JObj? && p[0] in j.fields &&
    (if |p| == 1 then j.fields[p[0]] == v else Reaches(j.fields[p[0]], p[1..], v))
  }

  lemma {:induction false} ReachesReads(j: J, p: seq<string>, v: J)
    requires Reaches(j, p, v)
    ensures ReadKeys(Some(j), p) == Some(v)
    decreases |p|
  {
    if |p| > 1 {
      ReachesReads(j.fields[p[0]], p[1..], v);
    }
  }

  lemma {:induction false} SetPathReaches(ref: J, keys: seq<string>, v: J)
    requires |keys| >= 1 && ObjectsAlong(ref, keys)
    ensures NoArrayOnPath(ref, keys)
    ensures SetPath(ref, keys, v).Ok? && Reaches(SetPath(ref, keys, v).value, keys, v)
    decreases |keys|
  {
    ObjectsAlongHasNoArray(ref, keys);
    if |keys| > 1 {
      var k := keys[0];
      var child := if k in ref.fields then ref.fields[k] else EmptyObject;
      SetPathReaches(child, keys[1..], v);
    }
  }

  /**
   * `setValue(p, v)` followed by `getValue(p)` reads `v` back (or `''` when `v`
   * is null), provided every existing container on the path is a plain object.
   */
  lemma SetThenGet(root: J, path: string, v: J)
    requires ObjectsAlong(root, Text.Split(path, '.'))
    ensures NoArrayOnPath(root, Text.Split(path, '.'))
    ensures SetPath(root, Text.Split(path, '.'), v).Ok?
    ensures GetValue(SetPath(root, Text.Split(path, '.'), v).value, path) == if v == JNull then JStr("") else v
  {
    var keys := Text.Split(path, '.');
    SetPathReaches(root, keys, v);
    ReachesReads(SetPath(root, keys, v).value, keys, v);
  }

  /** Nested objects are merged key by key: `{a:{x:1}}` merged with `{a:{y:2}}` is `{a:{x:1,y:2}}`. */
  lemma MergeNestedExample()
    ensures Merge(JObj(map["a" := JObj(map["x" := JNum(1)])]), JObj(map["a" := JObj(map["y" := JNum(2)])]))
         == JObj(map["a" := JObj(map["x" := JNum(1), "y" := JNum(2)])])
  {
    var inner := Merge(JObj(map["x" := JNum(1)]), JObj(map["y" := JNum(2)]));
    assert inner.fields == map["x" := JNum(1), "y" := JNum(2)];
    var r := Merge(JObj(map["a" := JObj(map["x" := JNum(1)])]), JObj(map["a" := JObj(map["y" := JNum(2)])]));
    assert r.fields["a"] == inner;
    assert r.fields == map["a" := inner];
  }

  /** An array in the source replaces the target's array wholesale: `{a:[1,2]}` merged with `{a:[3]}` is `{a:[3]}`. */
  lemma MergeArrayExample()
    ensures Merge(JObj(map["a" := JArr([JNum(1), JNum(2)])]), JObj(map["a" := JArr([JNum(3)])]))
         == JObj(map["a" := JArr([JNum(3)])])
  {
    var r := Merge(JObj(map["a" := JArr([JNum(1), JNum(2)])]), JObj(map["a" := JArr([JNum(3)])]));
    assert r.fields == map["a" := JArr([JNum(3)])];
  }
}
