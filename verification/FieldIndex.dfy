/**
 Struct field lookup: a linear scan while a struct is small, a map of names and lower-cased aliases when it is not.
 For any lower-casing that is idempotent the two give the same field.
 */
module FieldIndex {
  import opened Results

  type Lower = string -> string
  type Folds = (string, string) -> bool

  ghost predicate Idempotent(lower: Lower) {
    forall s :: lower(lower(s)) == lower(s)
  }

  /** The first field a name or its lower-cased alias stands for: what the map holds after it is filled. */
  function FirstNamed(names: seq<string>, lower: Lower, key: string): (r: Option<nat>)
    ensures r.Some? ==> r.value < |names| && (names[r.value] == key || lower(names[r.value]) == key)
    ensures r.Some? ==> forall i :: 0 <= i < r.value ==> names[i] != key && lower(names[i]) != key
    ensures r.None? ==> forall i :: 0 <= i < |names| ==> names[i] != key && lower(names[i]) != key
  {
    if names == [] then None
    else if names[0] == key || lower(names[0]) == key then Some(0)
    else
      match FirstNamed(names[1..], lower, key)
      case None => None
      case Some(i) => Some(i + 1)
  }

  /** The fallback: the first field whose name folds to the key. */
  function FirstFolded(names: seq<string>, folds: Folds, key: string): (r: Option<nat>)
    ensures r.Some? ==> r.value < |names| && folds(names[r.value], key)
    ensures r.Some? ==> forall i :: 0 <= i < r.value ==> !folds(names[i], key)
    ensures r.None? ==> forall i :: 0 <= i < |names| ==> !folds(names[i], key)
  {
    if names == [] then None
    else if folds(names[0], key) then Some(0)
    else
      match FirstFolded(names[1..], folds, key)
      case None => None
      case Some(i) => Some(i + 1)
  }

  /** What a lookup answers: the exact or aliased field, and only when there is none a folded one. */
  function Answer(names: seq<string>, lower: Lower, folds: Folds, key: string): Option<nat> {
    if FirstNamed(names, lower, key).Some? then FirstNamed(names, lower, key) else FirstFolded(names, folds, key)
  }

  lemma {:induction false} FirstNamedSnoc(names: seq<string>, name: string, lower: Lower, key: string)
    ensures FirstNamed(names + [name], lower, key)
         == if FirstNamed(names, lower, key).Some? then FirstNamed(names, lower, key)
            else if name == key || lower(name) == key then Some(|names|) else None
  {
    var more := names + [name];
    assert forall i :: 0 <= i < |names| ==> more[i] == names[i];
    assert more[|names|] == name;
  }

  /** The map sends every name and alias to the first field it stands for. */
  ghost predicate Indexes(index: map<string, nat>, names: seq<string>, lower: Lower) {
    forall key :: match FirstNamed(names, lower, key)
                  case Some(i) => key in index && index[key] == i
                  case None => key !in index
  }

  function Added(index: map<string, nat>, key: string, i: nat): map<string, nat> {
    if key in index then index else index[key := i]
  }

  lemma IndexGrows(index: map<string, nat>, names: seq<string>, name: string, lower: Lower)
    requires Indexes(index, names, lower)
    ensures Indexes(Added(Added(index, name, |names|), lower(name), |names|), names + [name], lower)
  {
    hide FirstNamed;
    forall key {
      FirstNamedSnoc(names, name, lower, key);
    }
  }

  lemma NothingIndexed(lower: Lower)
    ensures Indexes(map[], [], lower)
  {
  }

  class TypeInfo {
    const lower: Lower
    var names: seq<string>
    var lowerNames: seq<string>
    var byNameIndex: map<string, nat>

    ghost predicate Valid()
      reads this
    {
      && |lowerNames| == |names| && (forall i :: 0 <= i < |names| ==> lowerNames[i] == lower(names[i]))
      && Indexes(byNameIndex, names, lower)
    }

    /** `build`, for the names of the fields that are not skipped. */
    constructor (fieldNames: seq<string>, lower: Lower)
      ensures Valid() && names == fieldNames && this.lower == lower
    {
      hide Indexes;
      this.lower, names, lowerNames, byNameIndex := lower, [], [], map[];
      new;
      NothingIndexed(lower);
      for i := 0 to |fieldNames|
        invariant Valid() && names == fieldNames[..i]
      {
        var name := fieldNames[i];
        IndexGrows(byNameIndex, names, name, lower);
        if name !in byNameIndex {
          byNameIndex := byNameIndex[name := |names|];
        }
        var l := lower(name);
        if l != name && l !in byNameIndex {
          byNameIndex := byNameIndex[l := |names|];
        }
        names, lowerNames := names + [name], lowerNames + [l];
      }
    }

    method IndexOf(texts: seq<string>, key: string) returns (r: Option<nat>)
      ensures match r
              case Some(i) => i < |texts| && texts[i] == key && forall j :: 0 <= j < i ==> texts[j] != key
              case None => key !in texts
    {
      for i := 0 to |texts|
        invariant forall j :: 0 <= j < i ==> texts[j] != key
      {
        if texts[i] == key {
          return Some(i);
        }
      }
      return None;
    }

    method Folded(folds: Folds, key: string) returns (r: Option<nat>)
      ensures r == FirstFolded(names, folds, key)
    {
      for i := 0 to |names|
        invariant forall j :: 0 <= j < i ==> !folds(names[j], key)
      {
        if folds(names[i], key) {
          return Some(i);
        }
      }
      return None;
    }

    /** `lookupStructFieldIndex`: whichever way it goes, the answer is the same. */
    method LookupIndex(folds: Folds, key: string) returns (r: Option<nat>)
      requires Valid() && Idempotent(lower)
      ensures r == Answer(names, lower, folds, key)
    {
      if |names| <= 8 {
        r := IndexOf(lowerNames, key);
        if r.Some? {
          AliasFirst(names, lower, key, r.value);
          return;
        }
        r := IndexOf(names, key);
        if r.Some? {
          return;
        }
        r := Folded(folds, key);
        return;
      }
      if key in byNameIndex {
        return Some(byNameIndex[key]);
      }
      r := Folded(folds, key);
    }

    /** The scan of `lookupStructField`, which tries name and alias together. */
    method LookupByString(folds: Folds, key: string) returns (r: Option<nat>)
      requires Valid()
      ensures r == Answer(names, lower, folds, key)
    {
      if |names| <= 8 {
        for i := 0 to |names|
          invariant forall j :: 0 <= j < i ==> names[j] != key && lowerNames[j] != key
        {
          if names[i] == key || lowerNames[i] == key {
            return Some(i);
          }
        }
        r := Folded(folds, key);
        return;
      }
      if key in byNameIndex {
        return Some(byNameIndex[key]);
      }
      r := Folded(folds, key);
    }
  }

  /** The first alias is the first match of either kind: a field named like an alias has that alias itself. */
  lemma AliasFirst(names: seq<string>, lower: Lower, key: string, i: nat)
    requires Idempotent(lower) && i < |names| && lower(names[i]) == key
    requires forall j :: 0 <= j < i ==> lower(names[j]) != key
    ensures FirstNamed(names, lower, key) == Some(i)
  {
    forall j | 0 <= j < i ensures names[j] != key {
      assert lower(lower(names[i])) == key;
    }
  }
}
