/**
 Key paths and their string form. The bookkeeping of `parseDocument` and of `Document` keys its maps by the
 segments of a path joined with NUL, so two paths that join to the same string share one entry.
 */
module Paths {
  type Segment = string
  type Path = seq<Segment>
  type KeyPath = path: Path | path != [] witness [""]

  const NUL: char := '\0'

  function Encode(path: Path): string {
    if path == [] then ""
    else if |path| == 1 then path[0]
    else path[0] + [NUL] + Encode(path[1..])
  }

  predicate NulFreeText(s: string) {
    NUL !in s
  }

  predicate NulFree(path: Path) {
    forall i :: 0 <= i < |path| ==> NulFreeText(path[i])
  }

  /** `s` cut at every NUL. */
  function Split(s: string): (r: seq<string>)
    ensures r != []
  {
    if s == [] then [""]
    else Cut(s[0], Split(s[1..]))
  }

  /** The cut text with `c` put in front of it. */
  function Cut(c: char, parts: seq<string>): (r: seq<string>)
    requires parts != []
    ensures r != []
  {
    if c == NUL then [""] + parts else [[c] + parts[0]] + parts[1..]
  }

  lemma CutOfConcat(c: char, x: seq<string>, y: seq<string>)
    requires x != []
    ensures Cut(c, x + y) == Cut(c, x) + y
  {
    assert (x + y)[1..] == x[1..] + y;
  }

  /** The segments of a path, each cut further at the NULs it holds. */
  function Pieces(path: Path): seq<string> {
    if path == [] then [] else Split(path[0]) + Pieces(path[1..])
  }

  lemma {:induction false} EncodeOfSplit(s: string)
    ensures Encode(Split(s)) == s
  {
    if s != [] {
      var rest := Split(s[1..]);
      EncodeOfSplit(s[1..]);
      if s[0] == NUL {
        assert Split(s)[1..] == rest;
      } else {
        assert Split(s)[1..] == rest[1..];
        if |rest| > 1 {
          assert [s[0]] + (rest[0] + [NUL] + Encode(rest[1..])) == ([s[0]] + rest[0]) + [NUL] + Encode(rest[1..]);
        }
      }
    }
  }

  lemma {:induction false} SplitOfJoin(a: string, b: string)
    ensures Split(a + [NUL] + b) == Split(a) + Split(b)
  {
    var joined := a + [NUL] + b;
    if a == [] {
      assert joined[1..] == b;
    } else {
      SplitOfJoin(a[1..], b);
      assert joined[0] == a[0] && joined[1..] == a[1..] + [NUL] + b;
      CutOfConcat(a[0], Split(a[1..]), Split(b));
    }
  }

  lemma {:induction false} SplitOfEncode(path: KeyPath)
    ensures Split(Encode(path)) == Pieces(path)
    decreases |path|
  {
    if |path| == 1 {
      assert Pieces(path[1..]) == [];
    } else {
      SplitOfJoin(path[0], Encode(path[1..]));
      SplitOfEncode(path[1..]);
    }
  }

  /** Exactly which paths share a bookkeeping entry. */
  lemma EncodeCollidesIff(p: KeyPath, q: KeyPath)
    ensures Encode(p) == Encode(q) <==> Pieces(p) == Pieces(q)
  {
    SplitOfEncode(p);
    SplitOfEncode(q);
    EncodeOfSplit(Encode(p));
    EncodeOfSplit(Encode(q));
  }

  lemma {:induction false} SplitNulFree(s: string)
    requires NulFreeText(s)
    ensures Split(s) == [s]
  {
    if s != [] {
      assert s[0] in s && [s[0]] + s[1..] == s;
      SplitNulFree(s[1..]);
    }
  }

  lemma {:induction false} PiecesNulFree(path: Path)
    requires NulFree(path)
    ensures Pieces(path) == path
  {
    if path != [] {
      assert NulFreeText(path[0]);
      SplitNulFree(path[0]);
      PiecesNulFree(path[1..]);
    }
  }

  lemma EncodeInjective(p: KeyPath, q: KeyPath)
    requires NulFree(p) && NulFree(q) && Encode(p) == Encode(q)
    ensures p == q
  {
    EncodeCollidesIff(p, q);
    PiecesNulFree(p);
    PiecesNulFree(q);
  }

  // ----- Sets of paths whose records do not collide -----

  /** No two paths of `u` share a record. */
  ghost predicate Apart(u: iset<Path>) {
    forall p: KeyPath, q: KeyPath :: p in u && q in u && Encode(p) == Encode(q) ==> p == q
  }

  ghost predicate PrefixClosed(u: iset<Path>) {
    [] in u && forall p, i :: p in u && 0 <= i <= |p| ==> p[..i] in u
  }

  ghost predicate Names(u: iset<Path>) {
    PrefixClosed(u) && Apart(u)
  }

  lemma NamesClosed(u: iset<Path>)
    requires Names(u)
    ensures PrefixClosed(u)
  {
  }

  lemma PrefixIn(u: iset<Path>, p: Path, q: Path)
    requires PrefixClosed(u) && p <= q && q in u
    ensures p in u
  {
    assert q[..|p|] == p;
  }

  lemma PrefixNamed(u: iset<Path>, p: Path, q: Path)
    requires Names(u) && p <= q && q in u
    ensures p in u
  {
    assert q[..|p|] == p;
  }

  /** Paths without NUL do not collide. */
  lemma NulFreeNames()
    ensures Names(iset p: Path | NulFree(p))
  {
    forall p: KeyPath, q: KeyPath | NulFree(p) && NulFree(q) && Encode(p) == Encode(q) ensures p == q {
      EncodeInjective(p, q);
    }
  }
}
