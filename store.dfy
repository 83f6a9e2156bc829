/** The in-memory video store: a list of records loaded once from a seed
    file, changed in place by append, delete and replace, and written out
    whole to a separate snapshot file after every change. */
module Store {
  import opened Records
  import opened Text

  datatype Option<T> = None | Some(value: T)

  class VideoStore {
    /** The records, in insertion order. */
    var videos: seq<Video>
    /** What the snapshot file holds: None until the store first writes it. */
    ghost var persisted: Option<seq<Video>>

    /** The snapshot file holds exactly the in-memory list. */
    ghost predicate Synced()
      reads this
    {
      persisted == Some(videos)
    }

    /** Starts from the records read from the seed file; nothing is written yet. */
    constructor (seed: seq<Video>)
      ensures videos == seed && persisted == None
    {
      videos := seed;
      persisted := None;
    }

    /** The whole snapshot write: the file is overwritten with the current list. */
    method WriteToDb()
      modifies this`persisted
      ensures Synced()
    {
      persisted := Some(videos);
    }

    /** Appends `data` at the end, without checking whether its id is already used. */
    method AddVideo(data: Video)
      modifies this
      ensures videos == old(videos) + [data]
      ensures Synced()
    {
      videos := videos + [data];
      WriteToDb();
    }

    /** All records, in insertion order. */
    method GetVideos() returns (r: seq<Video>)
      ensures r == videos
    {
      r := videos;
    }

    /** Linear scan: true exactly when some record carries `id`. */
    method IdExistIn(id: int) returns (found: bool)
      ensures found <==> HasId(videos, id)
    {
      var i := 0;
      while i < |videos|
        invariant 0 <= i <= |videos|
        invariant forall j :: 0 <= j < i ==> videos[j].id != id
      {
        if videos[i].id == id {
          return true;
        }
        i := i + 1;
      }
      return false;
    }

    /** Deletes the first record carrying `id` and writes the snapshot;
        reports false and changes nothing when no record carries it. */
    method DeleteId(id: int) returns (removed: bool)
      modifies this
      ensures removed <==> HasId(old(videos), id)
      ensures videos == RemoveFirst(old(videos), id)
      ensures if removed then Synced() else persisted == old(persisted)
    {
      var i := 0;
      while i < |videos|
        invariant 0 <= i <= |videos|
        invariant videos == old(videos) && persisted == old(persisted)
        invariant forall j :: 0 <= j < i ==> videos[j].id != id
      {
        if videos[i].id == id {
          assert FirstIndex(videos, id) == i;
          videos := videos[..i] + videos[i + 1..];
          WriteToDb();
          return true;
        }
        i := i + 1;
      }
      return false;
    }

    /** Overwrites the first record carrying `id` with `data`, even when
        `data` carries another id, and writes the snapshot; reports false and
        changes nothing when no record carries `id`. */
    method UpdateVideoFile(id: int, data: Video) returns (updated: bool)
      modifies this
      ensures updated <==> HasId(old(videos), id)
      ensures videos == ReplaceFirst(old(videos), id, data)
      ensures if updated then Synced() else persisted == old(persisted)
    {
      var i := 0;
      while i < |videos|
        invariant 0 <= i <= |videos|
        invariant videos == old(videos) && persisted == old(persisted)
        invariant forall j :: 0 <= j < i ==> videos[j].id != id
      {
        if videos[i].id == id {
          assert FirstIndex(videos, id) == i;
          videos := videos[i := data];
          WriteToDb();
          return true;
        }
        i := i + 1;
      }
      return false;
    }

    /** The records whose folder string is exactly `folder`, in list order. */
    method ByFolder(folder: string) returns (found: seq<Video>)
      ensures found == Select(videos, InFolder(folder))
    {
      found := [];
      var i := 0;
      while i < |videos|
        invariant 0 <= i <= |videos|
        invariant found == Select(videos[..i], InFolder(folder))
      {
        assert videos[..i + 1][..i] == videos[..i];
        if videos[i].folder == folder {
          found := found + [videos[i]];
        }
        i := i + 1;
      }
      assert videos[..i] == videos;
    }

    /** Splits `tags` at commas and returns, in list order, each record that
        has at least one tag among the fields, once: the scan of a record's
        tags stops at its first hit. */
    method ByTags(tags: string) returns (found: seq<Video>)
      ensures found == Select(videos, AnyTag(Split(tags, ',')))
    {
      var tagList := Split(tags, ',');
      found := [];
      var i := 0;
      while i < |videos|
        invariant 0 <= i <= |videos|
        invariant found == Select(videos[..i], AnyTag(tagList))
      {
        assert videos[..i + 1][..i] == videos[..i];
        var before := found;
        var j := 0;
        while j < |videos[i].tags|
          invariant 0 <= j <= |videos[i].tags|
          invariant found == before
          invariant forall k :: 0 <= k < j ==> videos[i].tags[k] !in tagList
        {
          if videos[i].tags[j] in tagList {
            found := found + [videos[i]];
            break;
          }
          j := j + 1;
        }
        i := i + 1;
      }
      assert videos[..i] == videos;
    }
  }
}
