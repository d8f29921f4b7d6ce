/**
 The path keys of the editor's entries. `parseDottedPathKey` builds the NUL-joined key directly instead of joining the
 segments `parseDottedKey` returns; the two agree exactly on keys whose first segment is not empty.
 */
module DocumentKeys {
  import opened Results
  import opened Bytes
  import opened Paths
  import opened StringParser
  import opened StringWriter
  import opened Lexer

  function Extended(b: string, segment: string): string {
    if b == "" then segment else b + [NUL] + segment
  }

  function Finished(b: string): Result<string, KeyFault> {
    if b == "" then Err(EmptyKey) else Ok(b)
  }

  /** The loop of `parseDottedPathKey`, with `b` written so far. */
  function PathKeyFrom(raw: string, b: string): Result<string, KeyFault>
    decreases |raw|
  {
    var trimmed := TrimLeft(raw, Blank);
    if trimmed == "" then Finished(b)
    else
      var first :- FirstSegment(trimmed);
      var rest := TrimLeft(first.rest, Blank);
      if rest == "" then Finished(Extended(b, first.segment))
      else if rest[0] != '.' then Err(UnexpectedInKey)
      else if TrimLeft(rest[1..], Blank) == "" then Err(EmptySegment)
      else PathKeyFrom(rest[1..], Extended(b, first.segment))
  }

  function PathKeyOf(raw: string): Result<string, KeyFault> {
    var trimmed := TrimSpace(raw);
    if BareKey(trimmed) then Ok(trimmed) else PathKeyFrom(trimmed, "")
  }

  /** The key written after `b` for a path: empty segments at the very front leave no trace. */
  function Appended(b: string, path: Path): string
    decreases |path|
  {
    if path == [] then b else Appended(Extended(b, path[0]), path[1..])
  }

  lemma {:induction false} AppendedEncodes(b: string, path: Path)
    requires b != ""
    ensures Appended(b, path) == if path == [] then b else b + [NUL] + Encode(path)
    decreases |path|
  {
    if |path| == 1 {
      assert path[1..] == [];
    } else if path != [] {
      AppendedEncodes(b + [NUL] + path[0], path[1..]);
      assert b + [NUL] + path[0] + [NUL] + Encode(path[1..]) == b + [NUL] + (path[0] + [NUL] + Encode(path[1..]));
    }
  }

  lemma {:induction false} PathKeyFollowsSegments(raw: string, b: string)
    ensures PathKeyFrom(raw, b)
         == match Segments(raw)
            case Err(f) => Err(f)
            case Ok(path) => Finished(Appended(b, path))
    decreases |raw|
  {
    hide FirstSegment;
    var trimmed := TrimLeft(raw, Blank);
    if trimmed != "" && FirstSegment(trimmed).Ok? {
      var first := FirstSegment(trimmed).value;
      var rest := TrimLeft(first.rest, Blank);
      assert [first.segment][1..] == [];
      if rest != "" && rest[0] == '.' && TrimLeft(rest[1..], Blank) != "" {
        PathKeyFollowsSegments(rest[1..], Extended(b, first.segment));
        if Segments(rest[1..]).Ok? {
          var more := Segments(rest[1..]).value;
          assert ([first.segment] + more)[1..] == more;
        }
      }
    }
  }

  /** The first empty segments are lost: the key is that of the rest of the path. */
  lemma {:induction false} AppendedFromNothing(path: Path)
    requires path != []
    ensures path[0] == "" ==> Appended("", path) == Appended("", path[1..])
    ensures path[0] != "" ==> Appended("", path) == Encode(path)
  {
    if path[0] != "" {
      AppendedEncodes(path[0], path[1..]);
      if |path| == 1 {
        assert path[1..] == [];
      }
    }
  }

  lemma {:induction false} AppendedShorter(b: string, path: Path)
    ensures |Appended(b, path)| <= |b| + 1 + |Encode(path)|
    ensures b == "" ==> |Appended(b, path)| <= |Encode(path)|
    decreases |path|
  {
    if b != "" {
      AppendedEncodes(b, path);
    } else if path != [] {
      AppendedFromNothing(path);
      AppendedShorter("", path[1..]);
      if |path| == 1 {
        assert path[1..] == [];
      }
    }
  }

  lemma BareSegments(key: string)
    requires BareKey(key)
    ensures TrimLeft(key, Blank) == key && Segments(key) == Ok([key])
  {
    var end := FirstStop(key, SegmentEnd);
    assert end == |key|;
    assert key[..end] == key && key[end..] == "";
  }

  /** Where `parseDottedKey` fails this fails in the same way; else it writes the path from its first real segment on. */
  lemma PathKeyMeans(raw: string)
    ensures PathKeyOf(raw)
         == match ParseDottedKey(raw)
            case Err(f) => Err(f)
            case Ok(path) => Finished(Appended("", path))
  {
    hide Segments, PathKeyFrom;
    var trimmed := TrimSpace(raw);
    if BareKey(trimmed) {
      BareSegments(trimmed);
      AppendedFromNothing([trimmed]);
    } else {
      PathKeyFollowsSegments(trimmed, "");
    }
  }

  /** The editor's key of a path is the path's encoding exactly when the first segment is not empty. */
  lemma PathKeyAgreesIff(raw: string)
    requires ParseDottedKey(raw).Ok?
    ensures PathKeyOf(raw) == Ok(Encode(ParseDottedKey(raw).value)) <==> ParseDottedKey(raw).value[0] != ""
  {
    hide ParseDottedKey, PathKeyOf;
    var path := ParseDottedKey(raw).value;
    PathKeyMeans(raw);
    AppendedFromNothing(path);
    if path[0] == "" {
      AppendedShorter("", path[1..]);
    } else {
      assert Encode(path) != "";
    }
  }

  // ----- The interner -----

  /** `joinPathKeys`. */
  function Joined(parent: string, child: string): string {
    if parent == "" then child else if child == "" then parent else parent + [NUL] + child
  }

  lemma {:induction false} EncodeOfConcat(p: Path, q: Path)
    requires p != [] && q != []
    ensures Encode(p + q) == Encode(p) + [NUL] + Encode(q)
    decreases |p|
  {
    assert (p + q)[1..] == p[1..] + q;
    if |p| > 1 {
      EncodeOfConcat(p[1..], q);
    } else {
      assert p[1..] == [];
    }
  }

  /** The key of an entry under a header is the key of the whole path. */
  lemma JoinedIsWholePath(p: Path, q: Path)
    requires q != [] && (p != [] ==> Encode(p) != "") && Encode(q) != ""
    ensures Joined(Encode(p), Encode(q)) == Encode(p + q)
  {
    if p == [] {
      assert p + q == q;
    } else {
      EncodeOfConcat(p, q);
    }
  }

  /** Strings already seen are handed out again; joins are remembered by their two parts. */
  class PathInterner {
    var segments: map<string, string>
    var keys: map<string, string>
    var joins: map<(string, string), string>

    ghost predicate Valid()
      reads this
    {
      && (forall s :: s in segments ==> segments[s] == s)
      && (forall s :: s in keys ==> keys[s] == s)
      && (forall pair :: pair in joins ==> joins[pair] == Joined(pair.0, pair.1))
    }

    constructor ()
      ensures Valid()
    {
      segments, keys, joins := map[], map[], map[];
    }

    method InternSegment(s: string) returns (r: string)
      requires Valid()
      modifies this`segments
      ensures Valid() && r == s
    {
      if s in segments {
        return segments[s];
      }
      segments := segments[s := s];
      return s;
    }

    method InternPathKey(s: string) returns (r: string)
      requires Valid()
      modifies this`keys
      ensures Valid() && r == s
    {
      if s in keys {
        return keys[s];
      }
      keys := keys[s := s];
      return s;
    }

    method JoinPathKeys(parent: string, child: string) returns (r: string)
      requires Valid()
      modifies this`keys, this`joins
      ensures Valid() && r == Joined(parent, child)
    {
      if parent == "" {
        r := InternPathKey(child);
        return;
      }
      if child == "" {
        r := InternPathKey(parent);
        return;
      }
      if (parent, child) in joins {
        return joins[(parent, child)];
      }
      r := InternPathKey(parent + [NUL] + child);
      joins := joins[(parent, child) := r];
    }

    method ParseDottedPathKey(text: string) returns (r: Result<string, KeyFault>)
      requires Valid()
      modifies this`segments, this`keys
      ensures Valid() && r == PathKeyOf(text)
    {
      hide FirstSegment;
      var raw := TrimSpace(text);
      if BareKey(raw) {
        var segment := InternSegment(raw);
        var key := InternPathKey(segment);
        return Ok(key);
      }
      var b := "";
      ghost var goal := PathKeyFrom(raw, "");
      while raw != ""
        invariant Valid() && goal == PathKeyFrom(raw, b)
        decreases |raw|
      {
        raw := TrimLeft(raw, Blank);
        if raw == "" {
          break;
        }
        var first :- FirstSegment(raw);
        var part := InternSegment(first.segment);
        ghost var extended := Extended(b, part);
        if b != "" {
          b := b + [NUL];
        }
        b := b + part;
        assert b == extended;
        raw := TrimLeft(first.rest, Blank);
        if raw == "" {
          break;
        }
        if raw[0] != '.' {
          return Err(UnexpectedInKey);
        }
        raw := raw[1..];
        if TrimLeft(raw, Blank) == "" {
          return Err(EmptySegment);
        }
      }
      if b == "" {
        return Err(EmptyKey);
      }
      var key := InternPathKey(b);
      return Ok(key);
    }
  }
}
