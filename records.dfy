/** The video record and the pure specifications of the store's lookups:
    id membership, the first position holding an id, the list after deleting
    or replacing that position, and the folder and tag filters. */
module Records {

  /** One video's metadata. The service compares only `id`, `folder` and
      `tags`; the other fields are carried along unchanged. */
  datatype Video = Video(
    id: int,
    name: string,
    duration: int,
    description: string,
    dateCreated: string,
    thumbnail: string,
    folder: string,
    tags: seq<string>)

  /** Some record in `vs` carries `id`. */
  predicate HasId(vs: seq<Video>, id: int)
  {
    exists i :: 0 <= i < |vs| && vs[i].id == id
  }

  /** No two records share an id: the invariant the service means to keep. */
  predicate UniqueIds(vs: seq<Video>)
  {
    forall i, j :: 0 <= i < j < |vs| ==> vs[i].id != vs[j].id
  }

  /** The position of the first record carrying `id`. */
  function FirstIndex(vs: seq<Video>, id: int): (k: nat)
    requires HasId(vs, id)
    ensures k < |vs| && vs[k].id == id
    ensures forall j :: 0 <= j < k ==> vs[j].id != id
    decreases |vs|
  {
    if vs[0].id == id then 0
    else
      assert HasId(vs[1..], id) by {
        var i :| 0 <= i < |vs| && vs[i].id == id;
        assert vs[1..][i - 1].id == id;
      }
      FirstIndex(vs[1..], id) + 1
  }

  /** The list after deleting the first record that carries `id`; the list
      itself when no record does. */
  function RemoveFirst(vs: seq<Video>, id: int): (r: seq<Video>)
    ensures HasId(vs, id) ==>
      var k := FirstIndex(vs, id);
      |r| == |vs| - 1 &&
      (forall j :: 0 <= j < k ==> r[j] == vs[j]) &&
      (forall j :: k <= j < |r| ==> r[j] == vs[j + 1]) &&
      multiset(r) + multiset{vs[k]} == multiset(vs)
    ensures !HasId(vs, id) ==> r == vs
  {
    if HasId(vs, id) then
      var k := FirstIndex(vs, id);
      assert vs == vs[..k] + [vs[k]] + vs[k + 1..];
      vs[..k] + vs[k + 1..]
    else vs
  }

  /** The list after overwriting the first record that carries `id` with
      `data`, whatever `data`'s own id is; the list itself when no record does. */
  function ReplaceFirst(vs: seq<Video>, id: int, data: Video): (r: seq<Video>)
    ensures |r| == |vs|
    ensures HasId(vs, id) ==>
      var k := FirstIndex(vs, id);
      r[k] == data && forall j :: 0 <= j < |vs| && j != k ==> r[j] == vs[j]
    ensures !HasId(vs, id) ==> r == vs
  {
    if HasId(vs, id) then vs[FirstIndex(vs, id) := data] else vs
  }

  /** The two lookups the store filters by. */
  datatype Query =
    | InFolder(folder: string)     // folder string equal to `folder`
    | AnyTag(wanted: seq<string>)  // at least one tag among `wanted`

  predicate Matches(v: Video, q: Query)
  {
    match q
    case InFolder(f) => v.folder == f
    case AnyTag(wanted) => exists k :: 0 <= k < |v.tags| && v.tags[k] in wanted
  }

  /** The records of `vs` that match `q`, in list order, each position at most once. */
  function Select(vs: seq<Video>, q: Query): (r: seq<Video>)
    ensures |r| <= |vs|
    ensures forall i :: 0 <= i < |r| ==> Matches(r[i], q)
    decreases |vs|
  {
    if vs == [] then []
    else
      var last := vs[|vs| - 1];
      Select(vs[..|vs| - 1], q) + (if Matches(last, q) then [last] else [])
  }

  /** Filtering keeps order: the matches of a prefix come before those of the rest. */
  lemma {:induction false} SelectConcat(a: seq<Video>, b: seq<Video>, q: Query)
    ensures Select(a + b, q) == Select(a, q) + Select(b, q)
    decreases |b|
  {
    if b == [] {
      assert a + b == a;
    } else {
      var last := b[|b| - 1];
      assert (a + b)[..|a + b| - 1] == a + b[..|b| - 1];
      SelectConcat(a, b[..|b| - 1], q);
      var tail := if Matches(last, q) then [last] else [];
      assert Select(a + b, q) == Select(a + b[..|b| - 1], q) + tail;
    }
  }

  /** Each record occurs in the result exactly as often as in the list when
      it matches, and not at all otherwise: no record is reported twice for
      matching twice. */
  lemma {:induction false} SelectCount(vs: seq<Video>, q: Query, v: Video)
    ensures multiset(Select(vs, q))[v] == if Matches(v, q) then multiset(vs)[v] else 0
    decreases |vs|
  {
    if vs != [] {
      var init := vs[..|vs| - 1];
      var last := vs[|vs| - 1];
      SelectCount(init, q, v);
      assert vs == init + [last];
      assert multiset(vs) == multiset(init) + multiset{last};
    }
  }

  /** A record is in the result exactly when it is in the list and matches. */
  lemma SelectMembers(vs: seq<Video>, q: Query, v: Video)
    ensures v in Select(vs, q) <==> v in vs && Matches(v, q)
  {
  }

  /** The result is empty exactly when no record matches. */
  lemma {:induction false} SelectEmpty(vs: seq<Video>, q: Query)
    ensures Select(vs, q) == [] <==> forall i :: 0 <= i < |vs| ==> !Matches(vs[i], q)
  {
    if Select(vs, q) == [] {
      forall i | 0 <= i < |vs| ensures !Matches(vs[i], q) {
        SelectMembers(vs, q, vs[i]);
      }
    } else {
      SelectMembers(vs, q, Select(vs, q)[0]);
    }
  }

  /** Appending a record whose id is new keeps ids unique, and the id is then present. */
  lemma AppendFreshKeepsUnique(vs: seq<Video>, v: Video)
    requires UniqueIds(vs) && !HasId(vs, v.id)
    ensures UniqueIds(vs + [v]) && HasId(vs + [v], v.id)
  {
    assert (vs + [v])[|vs|].id == v.id;
  }

  /** With unique ids, deleting the first record carrying `id` removes the id
      altogether and keeps the others unique. */
  lemma RemoveFirstErasesId(vs: seq<Video>, id: int)
    requires UniqueIds(vs) && HasId(vs, id)
    ensures UniqueIds(RemoveFirst(vs, id)) && !HasId(RemoveFirst(vs, id), id)
  {
  }

  /** Deleting one id leaves the presence of every other id as it was. */
  lemma RemoveFirstKeepsOtherIds(vs: seq<Video>, id: int, other: int)
    requires other != id
    ensures HasId(RemoveFirst(vs, id), other) <==> HasId(vs, other)
  {
    if HasId(vs, id) {
      var k := FirstIndex(vs, id);
      var r := RemoveFirst(vs, id);
      if HasId(vs, other) {
        var i :| 0 <= i < |vs| && vs[i].id == other;
        assert i != k;
        var i' := if i < k then i else i - 1;
        assert r[i'] == vs[i];
      }
      if HasId(r, other) {
        var i :| 0 <= i < |r| && r[i].id == other;
        var i' := if i < k then i else i + 1;
        assert r[i] == vs[i'];
      }
    }
  }

  /** Replacing a record by one with the same id keeps ids unique. */
  lemma ReplaceSameIdKeepsUnique(vs: seq<Video>, id: int, data: Video)
    requires UniqueIds(vs) && data.id == id
    ensures UniqueIds(ReplaceFirst(vs, id, data))
  {
  }

  /** Replacing by a record whose id is already used at another position
      always duplicates that id: the store does not check that the new
      record's id matches the one it looked up. */
  lemma ReplaceForeignIdDuplicates(vs: seq<Video>, id: int, data: Video, j: nat)
    requires HasId(vs, id) && j < |vs| && j != FirstIndex(vs, id) && vs[j].id == data.id
    ensures !UniqueIds(ReplaceFirst(vs, id, data))
  {
    var k := FirstIndex(vs, id);
    var r := ReplaceFirst(vs, id, data);
    assert r[k].id == r[j].id;
  }

  /** One instance: in [a, b], replacing id 1 by b yields [b, b]. */
  lemma ReplaceCanDuplicateIds()
    ensures
      var a := Video(1, "a", 10, "", "", "", "A->B", ["x"]);
      var b := Video(2, "b", 20, "", "", "", "A->B", ["y"]);
      var vs := [a, b];
      UniqueIds(vs) && HasId(vs, 1) &&
      !UniqueIds(ReplaceFirst(vs, 1, b)) && ReplaceFirst(vs, 1, b) == [b, b]
  {
    var a := Video(1, "a", 10, "", "", "", "A->B", ["x"]);
    var b := Video(2, "b", 20, "", "", "", "A->B", ["y"]);
    var vs := [a, b];
    assert vs[0].id == 1;
    assert FirstIndex(vs, 1) == 0;
    var r := ReplaceFirst(vs, 1, b);
    assert r[0].id == r[1].id;
  }
}
